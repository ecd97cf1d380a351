/**
 * The deletion handler (processDelete.ts:13-59): for each SNS record, parse
 * the message; when it has `Records`, validate each S3 record's key the way
 * ingestion does and delete the item under that key from the "Images"
 * table. The first error thrown ends the invocation.
 */
module ProcessDelete {
  import opened Wrappers
  import opened Events
  import opened KeyCheck
  import opened Store

  /** The tasks of one SNS record at index i. */
  function NoticeTasks(rec: SnsRecord, i: nat): seq<Task> {
    match rec.message
    case Malformed => [Abort]
    case Parsed(n) =>
      match n.records
      case None => []
      case Some(rs) => RecordTasks(rs, i, 0)
  }

  /**
   * The parse comes before any record is handled: a message that does not
   * parse is one `Abort` and nothing else; otherwise the tasks are its
   * `Records`, in order, each at its position.
   */
  lemma NoticeTasksWalked(rec: SnsRecord, i: nat)
    ensures NoticeTasks(rec, i) == [Abort] <==> rec.message.Malformed?
    ensures rec.message.Parsed? ==> forall k :: 0 <= k < |NoticeTasks(rec, i)| ==>
      rec.message.value.records.Some? && k < |rec.message.value.records.value| &&
      NoticeTasks(rec, i)[k] == Handle(rec.message.value.records.value[k], (i, k))
  {
    if rec.message.Parsed? && rec.message.value.records.Some? {
      var ts := RecordTasks(rec.message.value.records.value, i, 0);
      assert |ts| > 0 ==> ts[0].Handle?;
    }
  }

  /** Whether a handled record is the one at its position of the `Records` of SNS record a. */
  predicate Walked(recs: seq<SnsRecord>, i: nat, t: Task)
    requires t.Handle?
  {
    var (a, b) := t.pos;
    i <= a < |recs| && recs[a].message.Parsed? && recs[a].message.value.records.Some? &&
    b < |recs[a].message.value.records.value| && t.record == recs[a].message.value.records.value[b]
  }

  /** The tasks of `recs[i..]`, in the order the two loops reach them. */
  function EventTasks(recs: seq<SnsRecord>, i: nat): seq<Task>
    decreases |recs| - i
  {
    if i >= |recs| then [] else NoticeTasks(recs[i], i) + EventTasks(recs, i + 1)
  }

  /**
   * Each handled task is the record at its position (a, b) of the
   * `Records` of SNS record a, and an `Abort` is there exactly when some
   * message does not parse.
   */
  lemma {:induction false} EventTasksWalked(recs: seq<SnsRecord>, i: nat)
    ensures var ts := EventTasks(recs, i);
      forall k :: 0 <= k < |ts| && ts[k].Handle? ==> Walked(recs, i, ts[k])
    ensures (Abort in EventTasks(recs, i)) <==> exists a :: i <= a < |recs| && recs[a].message.Malformed?
    decreases |recs| - i
  {
    if i < |recs| {
      EventTasksWalked(recs, i + 1);
      NoticeTasksWalked(recs[i], i);
      var h: seq<Task>, t: seq<Task> := NoticeTasks(recs[i], i), EventTasks(recs, i + 1);
      var ts := h + t;
      assert EventTasks(recs, i) == ts;
      forall k | 0 <= k < |ts| && ts[k].Handle? ensures Walked(recs, i, ts[k]) {
        if k >= |h| {
          assert ts[k] == t[k - |h|];
        }
      }
      assert (Abort in h) <==> recs[i].message.Malformed?;
      assert (Abort in ts) <==> (Abort in h) || (Abort in t);
    }
  }


  /**
   * What deleting one S3 record's item ends in, given whether the "Images"
   * table exists: validation errors come first, and every failure of the
   * delete becomes the one error "Couldn't delete ${srcKey}".
   */
  function Attempt(rec: S3Record, p: Pos, f: Faults, present: bool): (o: Outcome)
    ensures o == Ok <==> CheckKey(rec.key).Checked? && present && p !in f.write
    ensures IsValidationError(o) <==> CheckKey(rec.key).Refused?
    ensures o == StoreFailed <==> CheckKey(rec.key).Checked? && (!present || p in f.write)
    ensures CheckKey(rec.key).Refused? ==> o == CheckKey(rec.key).error
  {
    match CheckKey(rec.key)
    case Refused(e) => e
    case Checked(_) => if !present || p in f.write then StoreFailed else Ok
  }

  /** One record: a failure leaves every table as it was; a success removes one key. */
  function Step(ts: Tables, rec: S3Record, p: Pos, f: Faults): (r: Run)
    ensures r.outcome == Attempt(rec, p, f, ImagesTable in ts)
    ensures r.outcome != Ok ==> r.tables == ts
    ensures r.outcome == Ok ==>
      ImagesTable in ts && r.tables.Keys == ts.Keys &&
      CheckKey(rec.key).key !in r.tables[ImagesTable] &&
      (forall k :: k in ts[ImagesTable] && k != CheckKey(rec.key).key ==>
         k in r.tables[ImagesTable] && r.tables[ImagesTable][k] == ts[ImagesTable][k]) &&
      (forall n :: n in ts && n != ImagesTable ==> r.tables[n] == ts[n])
  {
    var o := Attempt(rec, p, f, ImagesTable in ts);
    if o == Ok then Run(Ok, ts[ImagesTable := ts[ImagesTable] - {CheckKey(rec.key).key}])
    else Run(o, ts)
  }

  /**
   * The tasks run in order until the first that does not end in `Ok`.
   * Only the "Images" table changes, and items are only ever removed from
   * it, never added or altered.
   */
  function Remove(ts: Tables, tasks: seq<Task>, f: Faults): (r: Run)
    ensures r.tables.Keys == ts.Keys
    ensures forall n :: n in ts && n != ImagesTable ==> r.tables[n] == ts[n]
    ensures ImagesTable in ts ==>
      forall k :: k in r.tables[ImagesTable] ==> k in ts[ImagesTable] && r.tables[ImagesTable][k] == ts[ImagesTable][k]
    decreases |tasks|
  {
    if tasks == [] then Run(Ok, ts)
    else match tasks[0]
      case Abort => Run(MalformedMessage, ts)
      case Handle(rec, p) =>
        var s := Step(ts, rec, p, f);
        if s.outcome != Ok then s else Remove(s.tables, tasks[1..], f)
  }

  /** The keys a batch deletes while "Images" exists, and how it ends. */
  datatype Plan = Plan(outcome: Outcome, deletes: set<string>)

  /** A reference for `Remove` that does not mention the tables at all. */
  function Planned(tasks: seq<Task>, f: Faults): Plan
    decreases |tasks|
  {
    if tasks == [] then Plan(Ok, {})
    else match tasks[0]
      case Abort => Plan(MalformedMessage, {})
      case Handle(rec, p) =>
        var o := Attempt(rec, p, f, true);
        if o != Ok then Plan(o, {})
        else
          var rest := Planned(tasks[1..], f);
          Plan(rest.outcome, {CheckKey(rec.key).key} + rest.deletes)
  }

  /** Deleting a key and then a set of keys is deleting both at once. */
  lemma RemoveAfterDelete(ts: Tables, k: string, d: set<string>)
    requires ImagesTable in ts
    ensures var ts1 := ts[ImagesTable := ts[ImagesTable] - {k}];
      ts1[ImagesTable := ts1[ImagesTable] - d] == ts[ImagesTable := ts[ImagesTable] - ({k} + d)]
  {
    assert ts[ImagesTable] - {k} - d == ts[ImagesTable] - ({k} + d);
  }

  /** Deleting no key leaves the tables as they are. */
  lemma RemoveNothing(ts: Tables)
    requires ImagesTable in ts
    ensures ts[ImagesTable := ts[ImagesTable] - {}] == ts
  {
    assert ts[ImagesTable] - {} == ts[ImagesTable];
  }

  /** Deletion is the old table with the planned keys taken out. */
  lemma {:induction false} RemoveClosedForm(ts: Tables, tasks: seq<Task>, f: Faults)
    requires ImagesTable in ts
    ensures Remove(ts, tasks, f) ==
      Run(Planned(tasks, f).outcome, ts[ImagesTable := ts[ImagesTable] - Planned(tasks, f).deletes])
    decreases |tasks|
  {
    if tasks == [] || tasks[0].Abort? || Attempt(tasks[0].record, tasks[0].pos, f, true) != Ok {
      RemoveNothing(ts);
    } else {
      var k := CheckKey(tasks[0].record.key).key;
      var ts1 := ts[ImagesTable := ts[ImagesTable] - {k}];
      assert Step(ts, tasks[0].record, tasks[0].pos, f).tables == ts1;
      RemoveClosedForm(ts1, tasks[1..], f);
      RemoveAfterDelete(ts, k, Planned(tasks[1..], f).deletes);
    }
  }

  /** Without an "Images" table nothing is deleted. */
  lemma NoTableNoChange(ts: Tables, tasks: seq<Task>, f: Faults)
    requires ImagesTable !in ts
    ensures Remove(ts, tasks, f).tables == ts
  {
    var r := Remove(ts, tasks, f);
    assert forall n :: n in ts ==> r.tables[n] == ts[n];
  }

  /**
   * Deleting twice is deleting once: the second run ends the same way and
   * leaves the same tables, since deleting an absent key changes nothing.
   */
  lemma RemoveIdempotent(ts: Tables, tasks: seq<Task>, f: Faults)
    ensures Remove(Remove(ts, tasks, f).tables, tasks, f) == Remove(ts, tasks, f)
  {
    var r := Remove(ts, tasks, f);
    if ImagesTable in ts {
      RemoveClosedForm(ts, tasks, f);
      RemoveClosedForm(r.tables, tasks, f);
      var m, d := ts[ImagesTable], Planned(tasks, f).deletes;
      assert (m - d) - d == m - d;
      assert r.tables[ImagesTable := r.tables[ImagesTable] - d] == r.tables;
    } else {
      NoTableNoChange(ts, tasks, f);
    }
  }

  /** Running a + b is running a, then b from where a left off, unless a ended in an error. */
  lemma {:induction false} RemoveAppend(ts: Tables, a: seq<Task>, b: seq<Task>, f: Faults)
    ensures Remove(ts, a + b, f) ==
      var r := Remove(ts, a, f);
      if r.outcome == Ok then Remove(r.tables, b, f) else r
    decreases |a|
  {
    if a == [] {
      assert a + b == b;
    } else {
      assert (a + b)[0] == a[0];
      assert (a + b)[1..] == a[1..] + b;
      match a[0]
      case Abort =>
      case Handle(rec, p) =>
        var s := Step(ts, rec, p, f);
        assert Remove(ts, a, f) == if s.outcome != Ok then s else Remove(s.tables, a[1..], f);
        assert Remove(ts, a + b, f) == if s.outcome != Ok then s else Remove(s.tables, a[1..] + b, f);
        if s.outcome == Ok {
          RemoveAppend(s.tables, a[1..], b, f);
        }
    }
  }

  /** A single task list is one step. */
  lemma RemoveOne(ts: Tables, rec: S3Record, p: Pos, f: Faults)
    ensures Remove(ts, [Handle(rec, p)], f) == Step(ts, rec, p, f)
  {
    assert [Handle(rec, p)][1..] == [];
  }

  /**
   * The first error stops the batch: what the records before it deleted
   * stays deleted, and no record after it is attempted.
   */
  lemma FirstErrorStops(ts: Tables, before: seq<Task>, rec: S3Record, p: Pos, after: seq<Task>, f: Faults)
    requires Remove(ts, before, f).outcome == Ok
    requires Step(Remove(ts, before, f).tables, rec, p, f).outcome != Ok
    ensures Remove(ts, before + [Handle(rec, p)] + after, f) ==
      Run(Step(Remove(ts, before, f).tables, rec, p, f).outcome, Remove(ts, before, f).tables)
  {
    RemoveAppend(ts, before + [Handle(rec, p)], after, f);
    RemoveAppend(ts, before, [Handle(rec, p)], f);
    RemoveOne(Remove(ts, before, f).tables, rec, p, f);
  }

  /** A key that no task targets is not deleted. */
  lemma {:induction false} UntargetedNotDeleted(tasks: seq<Task>, f: Faults, k: string)
    requires forall n :: 0 <= n < |tasks| ==> Target(tasks[n]) != Some(k)
    ensures k !in Planned(tasks, f).deletes
    decreases |tasks|
  {
    if tasks != [] {
      assert Target(tasks[0]) != Some(k);
      forall n | 0 <= n < |tasks[1..]| ensures Target(tasks[1..][n]) != Some(k) {
        assert tasks[1..][n] == tasks[n + 1];
      }
      UntargetedNotDeleted(tasks[1..], f, k);
    }
  }

  /** A batch that ends in `Ok` starts with a record that was deleted. */
  lemma PlannedHead(tasks: seq<Task>, f: Faults)
    requires tasks != [] && Planned(tasks, f).outcome == Ok
    ensures tasks[0].Handle? && Attempt(tasks[0].record, tasks[0].pos, f, true) == Ok
    ensures Planned(tasks[1..], f).outcome == Ok
    ensures Planned(tasks, f).deletes == {CheckKey(tasks[0].record.key).key} + Planned(tasks[1..], f).deletes
  {
  }

  /** A batch that ends in `Ok` reached every record, and each one's key passed validation and is deleted. */
  lemma {:induction false} PlannedOk(tasks: seq<Task>, f: Faults, m: nat)
    requires m < |tasks|
    requires Planned(tasks, f).outcome == Ok
    ensures tasks[m].Handle? && Attempt(tasks[m].record, tasks[m].pos, f, true) == Ok
    ensures CheckKey(tasks[m].record.key).key in Planned(tasks, f).deletes
    decreases |tasks|
  {
    PlannedHead(tasks, f);
    if m > 0 {
      var t := tasks[m];
      assert tasks[1..][m - 1] == t;
      PlannedOk(tasks[1..], f, m - 1);
      var x := CheckKey(t.record.key).key;
      assert x in Planned(tasks[1..], f).deletes;
      assert x in Planned(tasks, f).deletes;
    }
  }

  /**
   * After a batch that ends in `Ok` on an existing "Images" table, no
   * record's decoded key is left in it; every key that no record of the
   * batch names keeps its item.
   */
  lemma RemoveOkDeletesAll(ts: Tables, tasks: seq<Task>, f: Faults)
    requires ImagesTable in ts
    ensures var r := Remove(ts, tasks, f);
      forall k :: k in ts[ImagesTable] && (forall m :: 0 <= m < |tasks| ==> Target(tasks[m]) != Some(k)) ==>
        k in r.tables[ImagesTable] && r.tables[ImagesTable][k] == ts[ImagesTable][k]
    ensures var r := Remove(ts, tasks, f);
      r.outcome == Ok ==>
        forall m :: 0 <= m < |tasks| ==> Target(tasks[m]).Some? && Target(tasks[m]).value !in r.tables[ImagesTable]
  {
    RemoveClosedForm(ts, tasks, f);
    var p := Planned(tasks, f);
    forall k | k in ts[ImagesTable] && (forall m :: 0 <= m < |tasks| ==> Target(tasks[m]) != Some(k))
      ensures k !in p.deletes
    {
      UntargetedNotDeleted(tasks, f, k);
    }
    if p.outcome == Ok {
      forall m | 0 <= m < |tasks|
        ensures Target(tasks[m]).Some? && Target(tasks[m]).value in p.deletes
      {
        PlannedOk(tasks, f, m);
      }
    }
  }

  /**
   * Messages without `Records`, such as the caption messages published on
   * the same topic, are skipped: the handler ends in `Ok` and nothing changes.
   */
  lemma {:induction false} MessagesWithoutRecordsSkipped(ts: Tables, recs: seq<SnsRecord>, i: nat, f: Faults)
    requires forall k :: i <= k < |recs| ==> recs[k].message.Parsed? && recs[k].message.value.records.None?
    ensures Remove(ts, EventTasks(recs, i), f) == Run(Ok, ts)
    decreases |recs| - i
  {
    if i < |recs| {
      assert NoticeTasks(recs[i], i) == [];
      assert EventTasks(recs, i) == EventTasks(recs, i + 1);
      MessagesWithoutRecordsSkipped(ts, recs, i + 1, f);
    }
  }

  /** One S3 record: validate, then delete. */
  method HandleRecord(db: Database, rec: S3Record, p: Pos, f: Faults) returns (o: Outcome)
    modifies db
    ensures Run(o, db.tables) == Step(old(db.tables), rec, p, f)
  {
    var checked := CheckKey(rec.key);
    if checked.Refused? {
      return checked.error;
    }
    var ok := db.DeleteItem(ImagesTable, checked.key, p in f.write);
    o := if ok then Ok else StoreFailed;
  }

  /** The inner loop over the records of the message at index i. */
  method HandleRecords(db: Database, rs: seq<S3Record>, i: nat, f: Faults) returns (o: Outcome)
    modifies db
    ensures Run(o, db.tables) == Remove(old(db.tables), RecordTasks(rs, i, 0), f)
  {
    ghost var goal := Remove(db.tables, RecordTasks(rs, i, 0), f);
    var j := 0;
    while j < |rs|
      invariant 0 <= j <= |rs|
      invariant Remove(db.tables, RecordTasks(rs, i, j), f) == goal
      decreases |rs| - j
    {
      ghost var ts := db.tables;
      assert RecordTasks(rs, i, j) == [Handle(rs[j], (i, j))] + RecordTasks(rs, i, j + 1);
      RemoveAppend(ts, [Handle(rs[j], (i, j))], RecordTasks(rs, i, j + 1), f);
      RemoveOne(ts, rs[j], (i, j), f);
      o := HandleRecord(db, rs[j], (i, j), f);
      if o != Ok {
        return;
      }
      j := j + 1;
    }
    o := Ok;
  }

  /** One SNS record: the parse, then its records when it has any. */
  method HandleNotice(db: Database, rec: SnsRecord, i: nat, f: Faults) returns (o: Outcome)
    modifies db
    ensures Run(o, db.tables) == Remove(old(db.tables), NoticeTasks(rec, i), f)
  {
    match rec.message
    case Malformed =>
      o := MalformedMessage;
    case Parsed(n) =>
      if n.records.Some? {
        o := HandleRecords(db, n.records.value, i, f);
      } else {
        o := Ok;
      }
  }

  /** The handler: the outer loop over the SNS records, ending at the first error. */
  method Handler(db: Database, recs: seq<SnsRecord>, f: Faults) returns (o: Outcome)
    modifies db
    ensures Run(o, db.tables) == Remove(old(db.tables), EventTasks(recs, 0), f)
  {
    ghost var goal := Remove(db.tables, EventTasks(recs, 0), f);
    var i := 0;
    while i < |recs|
      invariant 0 <= i <= |recs|
      invariant Remove(db.tables, EventTasks(recs, i), f) == goal
      decreases |recs| - i
    {
      ghost var ts := db.tables;
      RemoveAppend(ts, NoticeTasks(recs[i], i), EventTasks(recs, i + 1), f);
      o := HandleNotice(db, recs[i], i, f);
      if o != Ok {
        return;
      }
      i := i + 1;
    }
    o := Ok;
  }
}
