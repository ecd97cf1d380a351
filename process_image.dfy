/**
 * The ingestion handler (processImage.ts:19-69): for each SQS record, parse
 * its body and the SNS message inside it, then for each S3 record of the
 * list it walks, validate the key, fetch the object from S3, and put
 * `{ImageName: key, Bucket: bucket}` into the "Images" table. The first
 * error thrown ends the invocation.
 */
module ProcessImage {
  import opened Wrappers
  import opened Events
  import opened KeyCheck
  import opened Store

  /**
   * Which list the inner loop walks. The code walks `recordBody.Records`,
   * the envelope's own field (processImage.ts:26,28): `AsWritten`. The
   * records of the S3 notification are in the parsed `snsMessage`
   * (line 23): `Intended`.
   */
  datatype Reading = AsWritten | Intended

  function Selected(b: QueueBody, reading: Reading): Option<seq<S3Record>> {
    match reading
    case AsWritten => b.records
    case Intended => if b.message.Parsed? then b.message.value.records else None
  }

  /** Whether an SQS body, or the SNS message inside it, does not parse. */
  predicate Unparsed(body: Json<QueueBody>) {
    body.Malformed? || body.value.message.Malformed?
  }

  /** Whether a handled record is the one at its position of the list body a's loop walks. */
  predicate Walked(bodies: seq<Json<QueueBody>>, reading: Reading, i: nat, t: Task)
    requires t.Handle?
  {
    var (a, b) := t.pos;
    i <= a < |bodies| && bodies[a].Parsed? && Selected(bodies[a].value, reading).Some? &&
    b < |Selected(bodies[a].value, reading).value| && t.record == Selected(bodies[a].value, reading).value[b]
  }

  /** The tasks of the SQS record at index i. */
  function BodyTasks(body: Json<QueueBody>, i: nat, reading: Reading): seq<Task> {
    match body
    case Malformed => [Abort]
    case Parsed(b) =>
      if b.message.Malformed? then [Abort]
      else match Selected(b, reading)
        case None => []
        case Some(rs) => RecordTasks(rs, i, 0)
  }

  /**
   * Both parses come before any record is handled: a body or message that
   * does not parse is one `Abort` and nothing else; otherwise the tasks are
   * the records of the walked list, in order, each at its position.
   */
  lemma BodyTasksWalked(body: Json<QueueBody>, i: nat, reading: Reading)
    ensures BodyTasks(body, i, reading) == [Abort] <==> Unparsed(body)
    ensures !Unparsed(body) ==> forall k :: 0 <= k < |BodyTasks(body, i, reading)| ==>
      Selected(body.value, reading).Some? && k < |Selected(body.value, reading).value| &&
      BodyTasks(body, i, reading)[k] == Handle(Selected(body.value, reading).value[k], (i, k))
  {
    if !Unparsed(body) && Selected(body.value, reading).Some? {
      var ts := RecordTasks(Selected(body.value, reading).value, i, 0);
      assert |ts| > 0 ==> ts[0].Handle?;
    }
  }

  /** The tasks of `bodies[i..]`, in the order the two loops reach them. */
  function QueueTasks(bodies: seq<Json<QueueBody>>, i: nat, reading: Reading): seq<Task>
    decreases |bodies| - i
  {
    if i >= |bodies| then [] else BodyTasks(bodies[i], i, reading) + QueueTasks(bodies, i + 1, reading)
  }

  /**
   * Each handled task is the record at its position (a, b) of the list
   * walked in body a, and an `Abort` is there exactly when some body or
   * message does not parse.
   */
  lemma {:induction false} QueueTasksWalked(bodies: seq<Json<QueueBody>>, i: nat, reading: Reading)
    ensures var ts := QueueTasks(bodies, i, reading);
      forall k :: 0 <= k < |ts| && ts[k].Handle? ==> Walked(bodies, reading, i, ts[k])
    ensures (Abort in QueueTasks(bodies, i, reading)) <==> exists a :: i <= a < |bodies| && Unparsed(bodies[a])
    decreases |bodies| - i
  {
    if i < |bodies| {
      QueueTasksWalked(bodies, i + 1, reading);
      BodyTasksWalked(bodies[i], i, reading);
      var h: seq<Task>, t: seq<Task> := BodyTasks(bodies[i], i, reading), QueueTasks(bodies, i + 1, reading);
      var ts := h + t;
      assert QueueTasks(bodies, i, reading) == ts;
      forall k | 0 <= k < |ts| && ts[k].Handle? ensures Walked(bodies, reading, i, ts[k]) {
        if k >= |h| {
          assert ts[k] == t[k - |h|];
        }
      }
      assert (Abort in h) <==> Unparsed(bodies[i]);
      assert (Abort in ts) <==> (Abort in h) || (Abort in t);
    }
  }

  /**
   * What handling one S3 record ends in, given whether the "Images" table
   * exists: the key is validated first, the object is fetched next, and
   * the put comes last.
   */
  function Attempt(rec: S3Record, p: Pos, f: Faults, present: bool): (o: Outcome)
    ensures o == Ok <==> CheckKey(rec.key).Checked? && p !in f.fetch && present && p !in f.write
    ensures IsValidationError(o) <==> CheckKey(rec.key).Refused?
    ensures o == FetchFailed <==> CheckKey(rec.key).Checked? && p in f.fetch
    ensures o == StoreFailed <==> CheckKey(rec.key).Checked? && p !in f.fetch && (!present || p in f.write)
    ensures CheckKey(rec.key).Refused? ==> o == CheckKey(rec.key).error
  {
    match CheckKey(rec.key)
    case Refused(e) => e
    case Checked(_) =>
      if p in f.fetch then FetchFailed
      else if !present || p in f.write then StoreFailed
      else Ok
  }

  /** The item a successful put stores: the bucket, and no description. */
  function Entry(rec: S3Record): Item {
    Item(Some(rec.bucket), None)
  }

  /** One record: a failure leaves every table as it was; a success replaces one item. */
  function Step(ts: Tables, rec: S3Record, p: Pos, f: Faults): (r: Run)
    ensures r.outcome == Attempt(rec, p, f, ImagesTable in ts)
    ensures r.outcome != Ok ==> r.tables == ts
    ensures r.outcome == Ok ==>
      ImagesTable in ts && r.tables.Keys == ts.Keys &&
      r.tables[ImagesTable] == ts[ImagesTable][CheckKey(rec.key).key := Entry(rec)] &&
      forall n :: n in ts && n != ImagesTable ==> r.tables[n] == ts[n]
  {
    var o := Attempt(rec, p, f, ImagesTable in ts);
    if o == Ok then Run(Ok, ts[ImagesTable := ts[ImagesTable][CheckKey(rec.key).key := Entry(rec)]])
    else Run(o, ts)
  }

  /**
   * The tasks run in order until the first that does not end in `Ok`.
   * Only the "Images" table changes, and no item is ever removed from it.
   */
  function Ingest(ts: Tables, tasks: seq<Task>, f: Faults): (r: Run)
    ensures r.tables.Keys == ts.Keys
    ensures forall n :: n in ts && n != ImagesTable ==> r.tables[n] == ts[n]
    ensures ImagesTable in ts ==> ts[ImagesTable].Keys <= r.tables[ImagesTable].Keys
    decreases |tasks|
  {
    if tasks == [] then Run(Ok, ts)
    else match tasks[0]
      case Abort => Run(MalformedMessage, ts)
      case Handle(rec, p) =>
        var s := Step(ts, rec, p, f);
        if s.outcome != Ok then s else Ingest(s.tables, tasks[1..], f)
  }

  /** Whether no task after index m writes the key that task m writes. */
  predicate LastWrite(tasks: seq<Task>, m: nat)
    requires m < |tasks|
  {
    forall n :: m < n < |tasks| ==> Target(tasks[n]) != Target(tasks[m])
  }

  /** The items a batch puts while "Images" exists, later puts winning, and how it ends. */
  datatype Plan = Plan(outcome: Outcome, puts: Table)

  /** A reference for `Ingest` that does not mention the tables at all. */
  function Planned(tasks: seq<Task>, f: Faults): Plan
    decreases |tasks|
  {
    if tasks == [] then Plan(Ok, map[])
    else match tasks[0]
      case Abort => Plan(MalformedMessage, map[])
      case Handle(rec, p) =>
        var o := Attempt(rec, p, f, true);
        if o != Ok then Plan(o, map[])
        else
          var rest := Planned(tasks[1..], f);
          Plan(rest.outcome, map[CheckKey(rec.key).key := Entry(rec)] + rest.puts)
  }

  /** Overlaying no puts leaves the tables as they are. */
  lemma OverlayNothing(ts: Tables)
    requires ImagesTable in ts
    ensures ts[ImagesTable := ts[ImagesTable] + map[]] == ts
  {
    assert ts[ImagesTable] + map[] == ts[ImagesTable];
  }

  /** One put followed by an overlay is a single overlay, the later puts winning. */
  lemma OverlayAfterPut(ts: Tables, k: string, v: Item, w: Table)
    requires ImagesTable in ts
    ensures var ts1 := ts[ImagesTable := ts[ImagesTable][k := v]];
      ts1[ImagesTable := ts1[ImagesTable] + w] == ts[ImagesTable := ts[ImagesTable] + (map[k := v] + w)]
  {
    assert ts[ImagesTable][k := v] + w == ts[ImagesTable] + (map[k := v] + w);
  }

  /** Ingestion is the old table overlaid with the planned puts. */
  lemma {:induction false} IngestClosedForm(ts: Tables, tasks: seq<Task>, f: Faults)
    requires ImagesTable in ts
    ensures Ingest(ts, tasks, f) ==
      Run(Planned(tasks, f).outcome, ts[ImagesTable := ts[ImagesTable] + Planned(tasks, f).puts])
    decreases |tasks|
  {
    if tasks == [] || tasks[0].Abort? || Attempt(tasks[0].record, tasks[0].pos, f, true) != Ok {
      OverlayNothing(ts);
    } else {
      var rec := tasks[0].record;
      var k, v := CheckKey(rec.key).key, Entry(rec);
      var ts1 := ts[ImagesTable := ts[ImagesTable][k := v]];
      assert Step(ts, rec, tasks[0].pos, f).tables == ts1;
      IngestClosedForm(ts1, tasks[1..], f);
      OverlayAfterPut(ts, k, v, Planned(tasks[1..], f).puts);
    }
  }

  /** Without an "Images" table nothing is written at all. */
  lemma NoTableNoChange(ts: Tables, tasks: seq<Task>, f: Faults)
    requires ImagesTable !in ts
    ensures Ingest(ts, tasks, f).tables == ts
  {
    var r := Ingest(ts, tasks, f);
    assert forall n :: n in ts ==> r.tables[n] == ts[n];
  }

  /** Re-processing the same batch yields the same outcome and the same tables. */
  lemma IngestIdempotent(ts: Tables, tasks: seq<Task>, f: Faults)
    ensures Ingest(Ingest(ts, tasks, f).tables, tasks, f) == Ingest(ts, tasks, f)
  {
    var r := Ingest(ts, tasks, f);
    if ImagesTable in ts {
      IngestClosedForm(ts, tasks, f);
      IngestClosedForm(r.tables, tasks, f);
      var m, w := ts[ImagesTable], Planned(tasks, f).puts;
      assert (m + w) + w == m + w;
      assert r.tables[ImagesTable := r.tables[ImagesTable] + w] == r.tables;
    } else {
      NoTableNoChange(ts, tasks, f);
    }
  }

  /** Running a + b is running a, then b from where a left off, unless a ended in an error. */
  lemma {:induction false} IngestAppend(ts: Tables, a: seq<Task>, b: seq<Task>, f: Faults)
    ensures Ingest(ts, a + b, f) ==
      var r := Ingest(ts, a, f);
      if r.outcome == Ok then Ingest(r.tables, b, f) else r
    decreases |a|
  {
    if a == [] {
      assert a + b == b;
    } else {
      assert (a + b)[0] == a[0];
      assert (a + b)[1..] == a[1..] + b;
      match a[0]
      case Abort =>
      case Handle(rec, p) =>
        var s := Step(ts, rec, p, f);
        assert Ingest(ts, a, f) == if s.outcome != Ok then s else Ingest(s.tables, a[1..], f);
        assert Ingest(ts, a + b, f) == if s.outcome != Ok then s else Ingest(s.tables, a[1..] + b, f);
        if s.outcome == Ok {
          IngestAppend(s.tables, a[1..], b, f);
        }
    }
  }

  /** A single task list is one step. */
  lemma IngestOne(ts: Tables, rec: S3Record, p: Pos, f: Faults)
    ensures Ingest(ts, [Handle(rec, p)], f) == Step(ts, rec, p, f)
  {
    assert [Handle(rec, p)][1..] == [];
  }

  /**
   * The first error stops the batch: what the records before it wrote
   * stays written, and no record after it is attempted.
   */
  lemma FirstErrorStops(ts: Tables, before: seq<Task>, rec: S3Record, p: Pos, after: seq<Task>, f: Faults)
    requires Ingest(ts, before, f).outcome == Ok
    requires Step(Ingest(ts, before, f).tables, rec, p, f).outcome != Ok
    ensures Ingest(ts, before + [Handle(rec, p)] + after, f) ==
      Run(Step(Ingest(ts, before, f).tables, rec, p, f).outcome, Ingest(ts, before, f).tables)
  {
    IngestAppend(ts, before + [Handle(rec, p)], after, f);
    IngestAppend(ts, before, [Handle(rec, p)], f);
    IngestOne(Ingest(ts, before, f).tables, rec, p, f);
  }

  /** A batch that ends in `Ok` starts with a record that was stored. */
  lemma PlannedHead(tasks: seq<Task>, f: Faults)
    requires tasks != [] && Planned(tasks, f).outcome == Ok
    ensures tasks[0].Handle? && Attempt(tasks[0].record, tasks[0].pos, f, true) == Ok
    ensures Planned(tasks[1..], f).outcome == Ok
    ensures Planned(tasks, f).puts ==
      map[CheckKey(tasks[0].record.key).key := Entry(tasks[0].record)] + Planned(tasks[1..], f).puts
  {
  }

  /**
   * A batch that ends in `Ok` reached and stored every record: each key
   * decoded and was accepted, and each item is the one put by the last
   * record with that key, with no description.
   */
  lemma {:induction false} PlannedOk(tasks: seq<Task>, f: Faults, m: nat)
    requires m < |tasks|
    requires Planned(tasks, f).outcome == Ok
    ensures tasks[m].Handle? && Attempt(tasks[m].record, tasks[m].pos, f, true) == Ok
    ensures Target(tasks[m]).Some?
    ensures LastWrite(tasks, m) ==>
      Target(tasks[m]).value in Planned(tasks, f).puts &&
      Planned(tasks, f).puts[Target(tasks[m]).value] == Entry(tasks[m].record)
    decreases |tasks|
  {
    PlannedHead(tasks, f);
    var k := Target(tasks[0]).value;
    var rest := Planned(tasks[1..], f).puts;
    assert Planned(tasks, f).puts == map[k := Entry(tasks[0].record)] + rest;
    if m > 0 {
      var t := tasks[m];
      assert tasks[1..][m - 1] == t;
      PlannedOk(tasks[1..], f, m - 1);
      if LastWrite(tasks, m) {
        assert LastWrite(tasks[1..], m - 1) by {
          forall n | m - 1 < n < |tasks[1..]|
            ensures Target(tasks[1..][n]) != Target(t)
          {
            assert tasks[1..][n] == tasks[n + 1];
          }
        }
        var x := Target(t).value;
        assert x in rest && rest[x] == Entry(t.record);
      }
    } else if LastWrite(tasks, 0) {
      forall n | 0 <= n < |tasks[1..]| ensures Target(tasks[1..][n]) != Some(k) {
        assert tasks[1..][n] == tasks[n + 1];
      }
      UntargetedNotPut(tasks[1..], f, k);
      assert k !in rest;
    }
  }

  /** A key that no task targets is not put: nothing else is written. */
  lemma {:induction false} UntargetedNotPut(tasks: seq<Task>, f: Faults, k: string)
    requires forall n :: 0 <= n < |tasks| ==> Target(tasks[n]) != Some(k)
    ensures k !in Planned(tasks, f).puts
    decreases |tasks|
  {
    if tasks != [] {
      assert Target(tasks[0]) != Some(k);
      forall n | 0 <= n < |tasks[1..]| ensures Target(tasks[1..][n]) != Some(k) {
        assert tasks[1..][n] == tasks[n + 1];
      }
      UntargetedNotPut(tasks[1..], f, k);
    }
  }

  /**
   * After a batch that ends in `Ok` on an existing "Images" table, the last
   * record for each key has its item stored, with no description; a key that
   * no record of the batch names keeps the item it had.
   */
  lemma IngestOkStoredAll(ts: Tables, tasks: seq<Task>, f: Faults)
    requires ImagesTable in ts
    ensures var r := Ingest(ts, tasks, f);
      forall k :: k in ts[ImagesTable] && (forall n :: 0 <= n < |tasks| ==> Target(tasks[n]) != Some(k)) ==>
        r.tables[ImagesTable][k] == ts[ImagesTable][k]
    ensures var r := Ingest(ts, tasks, f);
      r.outcome == Ok ==>
        forall m :: 0 <= m < |tasks| && LastWrite(tasks, m) ==>
          Target(tasks[m]).Some? && Target(tasks[m]).value in r.tables[ImagesTable] &&
          r.tables[ImagesTable][Target(tasks[m]).value] == Entry(tasks[m].record)
  {
    IngestClosedForm(ts, tasks, f);
    var p := Planned(tasks, f);
    forall k | k in ts[ImagesTable] && (forall n :: 0 <= n < |tasks| ==> Target(tasks[n]) != Some(k))
      ensures k !in p.puts
    {
      UntargetedNotPut(tasks, f, k);
    }
    if p.outcome == Ok {
      forall m | 0 <= m < |tasks| && LastWrite(tasks, m)
        ensures Target(tasks[m]).Some? && Target(tasks[m]).value in p.puts && p.puts[Target(tasks[m]).value] == Entry(tasks[m].record)
      {
        PlannedOk(tasks, f, m);
      }
    }
  }

  /** A message whose walked list is absent adds no task and so changes nothing. */
  lemma NoRecordsNoChange(ts: Tables, bodies: seq<Json<QueueBody>>, i: nat, reading: Reading, f: Faults)
    requires i < |bodies| && bodies[i].Parsed? && bodies[i].value.message.Parsed?
    requires Selected(bodies[i].value, reading).None?
    ensures Ingest(ts, QueueTasks(bodies, i, reading), f) == Ingest(ts, QueueTasks(bodies, i + 1, reading), f)
  {
    assert BodyTasks(bodies[i], i, reading) == [];
    assert [] + QueueTasks(bodies, i + 1, reading) == QueueTasks(bodies, i + 1, reading);
  }

  /**
   * A raw-delivered S3 event in the queue (its `Records`, no `Message`)
   * stops the handler at the second parse, before any record is handled,
   * whichever list the loop would walk.
   */
  lemma RawDeliveryAborts(ts: Tables, rs: seq<S3Record>, i: nat, reading: Reading, f: Faults)
    ensures Ingest(ts, BodyTasks(Parsed(QueueBody(Some(rs), Malformed)), i, reading), f) == Run(MalformedMessage, ts)
  {
    BodyTasksWalked(Parsed(QueueBody(Some(rs), Malformed)), i, reading);
  }

  /** The SQS body that SNS delivers: an envelope with no `Records` of its own. */
  function Delivered(n: Notification): QueueBody {
    QueueBody(None, Parsed(n))
  }

  /**
   * As written, a batch of delivered S3 notifications is never ingested,
   * however many valid records they hold: the handler ends in `Ok` and
   * nothing changes, because an SNS envelope has no `Records` of its own.
   */
  lemma {:induction false} AsWrittenSkipsNotifications(ts: Tables, bodies: seq<Json<QueueBody>>, i: nat, f: Faults)
    requires forall k :: i <= k < |bodies| ==> 
      bodies[k].Parsed? && bodies[k].value.records.None? && bodies[k].value.message.Parsed?
    ensures Ingest(ts, QueueTasks(bodies, i, AsWritten), f) == Run(Ok, ts)
    decreases |bodies| - i
  {
    if i < |bodies| {
      assert BodyTasks(bodies[i], i, AsWritten) == [];
      assert QueueTasks(bodies, i, AsWritten) == QueueTasks(bodies, i + 1, AsWritten);
      AsWrittenSkipsNotifications(ts, bodies, i + 1, f);
    }
  }

  /**
   * Reading the records from the parsed message, a delivered notification
   * with one valid record and no faults stores that record.
   */
  lemma IntendedStoresNotification(ts: Tables, rec: S3Record, i: nat, f: Faults)
    requires ImagesTable in ts && CheckKey(rec.key).Checked?
    requires (i, 0) !in f.fetch && (i, 0) !in f.write
    ensures var n := Notification(Some([rec]), None, None);
      Ingest(ts, BodyTasks(Parsed(Delivered(n)), i, Intended), f) ==
        Run(Ok, ts[ImagesTable := ts[ImagesTable][CheckKey(rec.key).key := Entry(rec)]])
  {
    assert RecordTasks([rec], i, 0) == [Handle(rec, (i, 0))];
    IngestOne(ts, rec, (i, 0), f);
  }

  /** One S3 record: validate, fetch, put. */
  method HandleRecord(db: Database, rec: S3Record, p: Pos, f: Faults) returns (o: Outcome)
    modifies db
    ensures Run(o, db.tables) == Step(old(db.tables), rec, p, f)
  {
    var checked := CheckKey(rec.key);
    if checked.Refused? {
      return checked.error;
    }
    var fetched := p !in f.fetch;
    if !fetched {
      return FetchFailed;
    }
    var ok := db.PutItem(ImagesTable, checked.key, Entry(rec), p in f.write);
    o := if ok then Ok else StoreFailed;
  }

  /** The inner loop over the records of the message at index i. */
  method HandleRecords(db: Database, rs: seq<S3Record>, i: nat, f: Faults) returns (o: Outcome)
    modifies db
    ensures Run(o, db.tables) == Ingest(old(db.tables), RecordTasks(rs, i, 0), f)
  {
    ghost var goal := Ingest(db.tables, RecordTasks(rs, i, 0), f);
    var j := 0;
    while j < |rs|
      invariant 0 <= j <= |rs|
      invariant Ingest(db.tables, RecordTasks(rs, i, j), f) == goal
      decreases |rs| - j
    {
      ghost var ts := db.tables;
      assert RecordTasks(rs, i, j) == [Handle(rs[j], (i, j))] + RecordTasks(rs, i, j + 1);
      IngestAppend(ts, [Handle(rs[j], (i, j))], RecordTasks(rs, i, j + 1), f);
      IngestOne(ts, rs[j], (i, j), f);
      o := HandleRecord(db, rs[j], (i, j), f);
      if o != Ok {
        return;
      }
      j := j + 1;
    }
    o := Ok;
  }

  /** One SQS record: both parses, then its records. */
  method HandleBody(db: Database, body: Json<QueueBody>, i: nat, f: Faults, reading: Reading) returns (o: Outcome)
    modifies db
    ensures Run(o, db.tables) == Ingest(old(db.tables), BodyTasks(body, i, reading), f)
  {
    match body
    case Malformed =>
      o := MalformedMessage;
    case Parsed(b) =>
      if b.message.Malformed? {
        o := MalformedMessage;
      } else {
        var selected := Selected(b, reading);
        if selected.Some? {
          o := HandleRecords(db, selected.value, i, f);
        } else {
          o := Ok;
        }
      }
  }

  /** The queue from body i on is body i, then the rest from where it left off, unless it ended in an error. */
  lemma IngestBody(ts: Tables, bodies: seq<Json<QueueBody>>, i: nat, reading: Reading, f: Faults)
    requires i < |bodies|
    ensures Ingest(ts, QueueTasks(bodies, i, reading), f) ==
      var r := Ingest(ts, BodyTasks(bodies[i], i, reading), f);
      if r.outcome == Ok then Ingest(r.tables, QueueTasks(bodies, i + 1, reading), f) else r
  {
    IngestAppend(ts, BodyTasks(bodies[i], i, reading), QueueTasks(bodies, i + 1, reading), f);
  }

  /** The handler: the outer loop over the batch, ending at the first error. */
  method Handler(db: Database, bodies: seq<Json<QueueBody>>, f: Faults, reading: Reading) returns (o: Outcome)
    modifies db
    ensures Run(o, db.tables) == Ingest(old(db.tables), QueueTasks(bodies, 0, reading), f)
  {
    ghost var goal := Ingest(db.tables, QueueTasks(bodies, 0, reading), f);
    var i := 0;
    while i < |bodies|
      invariant 0 <= i <= |bodies|
      invariant Ingest(db.tables, QueueTasks(bodies, i, reading), f) == goal
      decreases |bodies| - i
    {
      IngestBody(db.tables, bodies, i, reading, f);
      o := HandleBody(db, bodies[i], i, f, reading);
      if o != Ok {
        return;
      }
      i := i + 1;
    }
    o := Ok;
  }
}
