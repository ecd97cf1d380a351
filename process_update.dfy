/**
 * The caption handler (processUpdate.ts:7-47): for each SNS record, parse
 * the message; when its `comment_type` attribute is "Caption", read the
 * item named by the message and, if there is one, set its `Description`.
 * Every failure of the read or of the update surfaces as the one error
 * "The image you're updating doesn't exist.", and it ends the invocation.
 *
 * The table is a parameter: the code names 'ImageTable' (`CaptionTable`),
 * while the stack creates "Images" (`ImagesTable`).
 */
module ProcessUpdate {
  import opened Wrappers
  import opened Events
  import opened Store

  /** The guard at processUpdate.ts:12: the attribute exists and its value is exactly "Caption". */
  predicate IsCaption(rec: SnsRecord) {
    rec.commentType == Some("Caption")
  }

  /** How one record ends, and the description it sets on which key, if any. */
  datatype Effect = Effect(outcome: Outcome, patch: Option<(string, string)>)

  /**
   * One record against a table that exists (`present`) with the given keys:
   * the parse, the guard, the read (which fails for a missing name and for
   * a name the service does not take as a key, such as ""), then the update
   * only when the item exists (which fails for a missing description, since
   * the request then has no `:description` value).
   */
  function Attempt(keys: set<string>, rec: SnsRecord, i: nat, f: Faults, present: bool): (e: Effect)
    ensures e.outcome == Ok || e.outcome == MalformedMessage || e.outcome == UpdateFailed
    ensures e.outcome == MalformedMessage <==> rec.message.Malformed?
    ensures e.patch.Some? ==> e.outcome == Ok
    ensures e.patch.Some? <==>
      rec.message.Parsed? && IsCaption(rec) && present && (i, 0) !in f.read && (i, 0) !in f.write &&
      rec.message.value.name.Some? && KeyAccepted(rec.message.value.name.value) && rec.message.value.name.value in keys &&
      rec.message.value.description.Some?
    ensures e.patch.Some? ==>
      e.patch.value == (rec.message.value.name.value, rec.message.value.description.value)
    ensures rec.message.Parsed? && !IsCaption(rec) ==> e == Effect(Ok, None)
    ensures (rec.message.Parsed? && IsCaption(rec) && rec.message.value.name.Some? && present &&
             KeyAccepted(rec.message.value.name.value) && (i, 0) !in f.read &&
             rec.message.value.name.value !in keys) ==> e == Effect(Ok, None)
    ensures e.outcome == UpdateFailed <==>
      rec.message.Parsed? && IsCaption(rec) &&
      (rec.message.value.name.None? || !present || !KeyAccepted(rec.message.value.name.value) || (i, 0) in f.read ||
       (rec.message.value.name.value in keys && (rec.message.value.description.None? || (i, 0) in f.write)))
  {
    match rec.message
    case Malformed => Effect(MalformedMessage, None)
    case Parsed(n) =>
      if !IsCaption(rec) then Effect(Ok, None)
      else if n.name.None? || !present || !KeyAccepted(n.name.value) || (i, 0) in f.read then Effect(UpdateFailed, None)
      else if n.name.value !in keys then Effect(Ok, None)
      else if n.description.None? || (i, 0) in f.write then Effect(UpdateFailed, None)
      else Effect(Ok, Some((n.name.value, n.description.value)))
  }

  function KeysOf(ts: Tables, table: string): set<string> {
    if table in ts then ts[table].Keys else {}
  }

  /** Whether u holds the same keys as t, with the same buckets: only descriptions may differ. */
  ghost predicate SameItems(t: Table, u: Table) {
    t.Keys == u.Keys && forall k :: k in t ==> t[k].bucket == u[k].bucket
  }

  /** Whether a record is a parsed message naming the image `k`. */
  predicate Names(rec: SnsRecord, k: string) {
    rec.message.Parsed? && rec.message.value.name == Some(k)
  }

  /** One record: a failure leaves every table as it was; a success changes at most one description. */
  function Step(ts: Tables, table: string, rec: SnsRecord, i: nat, f: Faults): (r: Run)
    ensures r.outcome == Attempt(KeysOf(ts, table), rec, i, f, table in ts).outcome
    ensures r.outcome != Ok ==> r.tables == ts
    ensures Attempt(KeysOf(ts, table), rec, i, f, table in ts).patch.None? ==> r.tables == ts
    ensures r.tables.Keys == ts.Keys
    ensures table in ts ==> SameItems(ts[table], r.tables[table])
    ensures forall n :: n in ts && n != table ==> r.tables[n] == ts[n]
    ensures table in ts ==> forall k :: k in ts[table] && !Names(rec, k) ==> r.tables[table][k] == ts[table][k]
    ensures (table in ts && rec.message.Parsed? && IsCaption(rec) && rec.message.value.name.Some? &&
             rec.message.value.name.value in ts[table] && r.outcome == Ok) ==>
      r.tables[table][rec.message.value.name.value].description == rec.message.value.description
  {
    var e := Attempt(KeysOf(ts, table), rec, i, f, table in ts);
    match e.patch
    case None => Run(e.outcome, ts)
    case Some((k, d)) => Run(Ok, ts[table := ts[table][k := Described(ts[table], k, d)]])
  }

  /**
   * The records `recs`, the first at index `from`, run in order until the
   * first that does not end in `Ok`. Only descriptions in `table` change,
   * and the one error that can escape a read or an update is `UpdateFailed`.
   */
  function Captions(ts: Tables, table: string, recs: seq<SnsRecord>, from: nat, f: Faults): (r: Run)
    ensures r.outcome == Ok || r.outcome == MalformedMessage || r.outcome == UpdateFailed
    ensures r.tables.Keys == ts.Keys
    ensures table in ts ==> SameItems(ts[table], r.tables[table])
    ensures forall n :: n in ts && n != table ==> r.tables[n] == ts[n]
    ensures table !in ts ==> r.tables == ts
    decreases |recs|
  {
    if recs == [] then Run(Ok, ts)
    else
      var s := Step(ts, table, recs[0], from, f);
      if s.outcome != Ok then s else Captions(s.tables, table, recs[1..], from + 1, f)
  }

  /** The descriptions a batch sets, later ones winning, and how it ends. */
  datatype Plan = Plan(outcome: Outcome, patch: map<string, string>)

  /** A reference for `Captions` on an existing table, given only its keys. */
  function Planned(keys: set<string>, recs: seq<SnsRecord>, from: nat, f: Faults): Plan
    decreases |recs|
  {
    if recs == [] then Plan(Ok, map[])
    else
      var e := Attempt(keys, recs[0], from, f, true);
      if e.outcome != Ok then Plan(e.outcome, map[])
      else
        var rest := Planned(keys, recs[1..], from + 1, f);
        match e.patch
        case None => rest
        case Some((k, d)) => Plan(rest.outcome, map[k := d] + rest.patch)
  }

  /** The table with the planned descriptions set on the items it holds. */
  function Patched(t: Table, p: map<string, string>): (u: Table)
    ensures u.Keys == t.Keys
    ensures forall k :: k in t ==> u[k].bucket == t[k].bucket
    ensures forall k :: k in t && k in p ==> u[k].description == Some(p[k])
    ensures forall k :: k in t && k !in p ==> u[k] == t[k]
  {
    map k | k in t :: if k in p then t[k].(description := Some(p[k])) else t[k]
  }

  lemma PatchedNothing(t: Table)
    ensures Patched(t, map[]) == t
  {
  }

  /** Setting one description and then patching is one patch, the later descriptions winning. */
  lemma PatchAfterSet(t: Table, k: string, d: string, p: map<string, string>)
    requires k in t
    ensures Patched(t[k := Described(t, k, d)], p) == Patched(t, map[k := d] + p)
  {
  }

  /** Patching twice with the same descriptions is patching once. */
  lemma PatchedTwice(t: Table, p: map<string, string>)
    ensures Patched(Patched(t, p), p) == Patched(t, p)
  {
  }

  /** On an existing table, the batch is the old table patched with the planned descriptions. */
  lemma {:induction false} CaptionsClosedForm(ts: Tables, table: string, recs: seq<SnsRecord>, from: nat, f: Faults)
    requires table in ts
    ensures Captions(ts, table, recs, from, f) ==
      var p := Planned(ts[table].Keys, recs, from, f);
      Run(p.outcome, ts[table := Patched(ts[table], p.patch)])
    decreases |recs|
  {
    if recs == [] || Attempt(ts[table].Keys, recs[0], from, f, true).outcome != Ok {
      PatchedNothing(ts[table]);
      assert ts[table := ts[table]] == ts;
    } else {
      var e := Attempt(ts[table].Keys, recs[0], from, f, true);
      var rest := Planned(ts[table].Keys, recs[1..], from + 1, f);
      match e.patch
      case None =>
        assert Step(ts, table, recs[0], from, f).tables == ts;
        CaptionsClosedForm(ts, table, recs[1..], from + 1, f);
      case Some((k, d)) =>
        var t1 := ts[table][k := Described(ts[table], k, d)];
        assert t1.Keys == ts[table].Keys;
        assert Step(ts, table, recs[0], from, f).tables == ts[table := t1];
        CaptionsClosedForm(ts[table := t1], table, recs[1..], from + 1, f);
        PatchAfterSet(ts[table], k, d, rest.patch);
        assert ts[table := t1][table := Patched(t1, rest.patch)] ==
               ts[table := Patched(ts[table], map[k := d] + rest.patch)];
    }
  }

  /** Applying the same caption event twice gives the same outcome and tables as applying it once. */
  lemma CaptionsIdempotent(ts: Tables, table: string, recs: seq<SnsRecord>, from: nat, f: Faults)
    ensures Captions(Captions(ts, table, recs, from, f).tables, table, recs, from, f) == Captions(ts, table, recs, from, f)
  {
    var r := Captions(ts, table, recs, from, f);
    if table in ts {
      CaptionsClosedForm(ts, table, recs, from, f);
      var p := Planned(ts[table].Keys, recs, from, f).patch;
      assert r.tables == ts[table := Patched(ts[table], p)];
      assert r.tables[table].Keys == ts[table].Keys;
      CaptionsClosedForm(r.tables, table, recs, from, f);
      PatchedTwice(ts[table], p);
      assert r.tables[table := Patched(r.tables[table], p)] == r.tables;
    }
  }

  /** Running a + b is running a, then b from where a left off, unless a ended in an error. */
  lemma {:induction false} CaptionsAppend(ts: Tables, table: string, a: seq<SnsRecord>, b: seq<SnsRecord>, from: nat, f: Faults)
    ensures Captions(ts, table, a + b, from, f) ==
      var r := Captions(ts, table, a, from, f);
      if r.outcome == Ok then Captions(r.tables, table, b, from + |a|, f) else r
    decreases |a|
  {
    if a == [] {
      assert a + b == b;
    } else {
      assert (a + b)[0] == a[0];
      assert (a + b)[1..] == a[1..] + b;
      var s := Step(ts, table, a[0], from, f);
      if s.outcome == Ok {
        CaptionsAppend(s.tables, table, a[1..], b, from + 1, f);
      }
    }
  }

  /** Records that are not captions cause no read and no write. */
  lemma {:induction false} IgnoresNonCaptions(ts: Tables, table: string, recs: seq<SnsRecord>, from: nat, f: Faults)
    requires forall k :: 0 <= k < |recs| ==> recs[k].message.Parsed? && !IsCaption(recs[k])
    ensures Captions(ts, table, recs, from, f) == Run(Ok, ts)
    decreases |recs|
  {
    if recs != [] {
      assert recs[0].message.Parsed? && !IsCaption(recs[0]);
      forall k | 0 <= k < |recs[1..]| ensures recs[1..][k].message.Parsed? && !IsCaption(recs[1..][k]) {
        assert recs[1..][k] == recs[k + 1];
      }
      IgnoresNonCaptions(ts, table, recs[1..], from + 1, f);
    }
  }

  /** A key that no record names is not patched. */
  lemma {:induction false} UntargetedNotPatched(keys: set<string>, recs: seq<SnsRecord>, from: nat, f: Faults, k: string)
    requires forall n :: 0 <= n < |recs| ==> !Names(recs[n], k)
    ensures k !in Planned(keys, recs, from, f).patch
    decreases |recs|
  {
    if recs != [] {
      assert !Names(recs[0], k);
      forall n | 0 <= n < |recs[1..]| ensures !Names(recs[1..][n], k) {
        assert recs[1..][n] == recs[n + 1];
      }
      UntargetedNotPatched(keys, recs[1..], from + 1, f, k);
    }
  }

  /** An image that no record of the batch names keeps its item, description included. */
  lemma CaptionsKeepUnnamed(ts: Tables, table: string, recs: seq<SnsRecord>, from: nat, f: Faults)
    requires table in ts
    ensures var r := Captions(ts, table, recs, from, f);
      forall k :: k in ts[table] && (forall n :: 0 <= n < |recs| ==> !Names(recs[n], k)) ==>
        r.tables[table][k] == ts[table][k]
  {
    CaptionsClosedForm(ts, table, recs, from, f);
    forall k | k in ts[table] && (forall n :: 0 <= n < |recs| ==> !Names(recs[n], k))
      ensures k !in Planned(ts[table].Keys, recs, from, f).patch
    {
      UntargetedNotPatched(ts[table].Keys, recs, from, f, k);
    }
  }

  /** A caption for an image that is not stored is a silent no-op: no write and no error. */
  lemma MissingImageIgnored(ts: Tables, table: string, rec: SnsRecord, i: nat, f: Faults)
    requires table in ts && rec.message.Parsed? && IsCaption(rec) && (i, 0) !in f.read
    requires rec.message.value.name.Some? && KeyAccepted(rec.message.value.name.value)
    requires rec.message.value.name.value !in ts[table]
    ensures Captions(ts, table, [rec], i, f) == Run(Ok, ts)
  {
    assert [rec][1..] == [];
  }

  /**
   * A caption whose name is the empty text fails the read, whatever is
   * stored and whatever else fails: the handler ends in `UpdateFailed` and
   * writes nothing.
   */
  lemma EmptyNameFails(ts: Tables, table: string, rec: SnsRecord, i: nat, f: Faults)
    requires rec.message.Parsed? && IsCaption(rec) && rec.message.value.name == Some("")
    ensures Captions(ts, table, [rec], i, f) == Run(UpdateFailed, ts)
  {
    KeyBounds("");
  }

  /**
   * As written, the handler reads 'ImageTable', which the stack does not
   * create: every caption on a well-formed message fails with
   * `UpdateFailed` and changes nothing, even for an image that is stored in
   * "Images".
   */
  lemma CaptionTableMissing(ts: Tables, rec: SnsRecord, i: nat, f: Faults)
    requires ts.Keys == {ImagesTable}
    requires rec.message.Parsed? && IsCaption(rec)
    ensures Captions(ts, CaptionTable, [rec], i, f) == Run(UpdateFailed, ts)
  {
    assert CaptionTable !in ts;
  }

  /** Against "Images", a caption for a stored image with no faults sets its description and keeps its bucket. */
  lemma CaptionOnImagesTable(ts: Tables, rec: SnsRecord, i: nat, f: Faults)
    requires ImagesTable in ts && rec.message.Parsed? && IsCaption(rec)
    requires rec.message.value.name.Some? && KeyAccepted(rec.message.value.name.value)
    requires rec.message.value.name.value in ts[ImagesTable]
    requires rec.message.value.description.Some?
    requires (i, 0) !in f.read && (i, 0) !in f.write
    ensures var k := rec.message.value.name.value;
      Captions(ts, ImagesTable, [rec], i, f) ==
        Run(Ok, ts[ImagesTable := ts[ImagesTable][k := ts[ImagesTable][k].(description := rec.message.value.description)]])
  {
    assert [rec][1..] == [];
  }

  /** One SNS record: parse, guard, read, then the conditional update. */
  method HandleRecord(db: Database, table: string, rec: SnsRecord, i: nat, f: Faults) returns (o: Outcome)
    modifies db
    ensures Run(o, db.tables) == Step(old(db.tables), table, rec, i, f)
  {
    match rec.message
    case Malformed =>
      o := MalformedMessage;
    case Parsed(n) =>
      if !IsCaption(rec) {
        return Ok;
      }
      if n.name.None? {
        return UpdateFailed;
      }
      var got := db.GetItem(table, n.name.value, (i, 0) in f.read);
      if got.GetFailed? {
        return UpdateFailed;
      }
      if got.Missing? {
        return Ok;
      }
      var ok := db.SetDescription(table, n.name.value, n.description, (i, 0) in f.write);
      o := if ok then Ok else UpdateFailed;
  }

  /** The handler: the loop over the SNS records, ending at the first error. */
  method Handler(db: Database, recs: seq<SnsRecord>, f: Faults, table: string) returns (o: Outcome)
    modifies db
    ensures Run(o, db.tables) == Captions(old(db.tables), table, recs, 0, f)
  {
    ghost var goal := Captions(db.tables, table, recs, 0, f);
    var i := 0;
    while i < |recs|
      invariant 0 <= i <= |recs|
      invariant Captions(db.tables, table, recs[i..], i, f) == goal
      decreases |recs| - i
    {
      assert recs[i..][0] == recs[i] && recs[i..][1..] == recs[i + 1..];
      o := HandleRecord(db, table, recs[i], i, f);
      if o != Ok {
        return;
      }
      i := i + 1;
    }
    o := Ok;
  }
}
