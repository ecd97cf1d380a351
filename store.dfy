/**
 * DynamoDB as the handlers see it: tables by name, each a map from the
 * partition key `ImageName` to the item's other attributes.
 */
module Store {
  import opened Wrappers
  import opened Events

  /** The attributes of an image item besides its key `ImageName`. */
  datatype Item = Item(bucket: Option<string>, description: Option<string>)

  type Table = map<string, Item>
  type Tables = map<string, Table>

  /** The table the stack creates (lib/eda-app-stack.ts:26-31). */
  const ImagesTable: string := "Images"

  /** The table processUpdate.ts:17,25 names. */
  const CaptionTable: string := "ImageTable"

  /** How a handler invocation ends, and the tables it leaves behind. */
  datatype Run = Run(outcome: Outcome, tables: Tables)

  /** The bytes one character takes in UTF-8. */
  function CharBytes(c: char): (n: nat)
    ensures 1 <= n <= 4
  {
    if c as int < 0x80 then 1 else if c as int < 0x800 then 2 else if c as int < 0x1_0000 then 3 else 4
  }

  /** The length of a text in UTF-8 bytes, the measure DynamoDB bounds a key by. */
  function Utf8Length(s: string): (n: nat)
    ensures |s| <= n <= 4 * |s|
  {
    if s == [] then 0 else CharBytes(s[0]) + Utf8Length(s[1..])
  }

  /**
   * Whether the service takes `key` as a value of the string partition key:
   * at least 1 and at most 2048 bytes. Any other key is a ValidationException
   * (the document client's `convertEmptyValues` even sends "" as NULL, which
   * the key schema refuses as well).
   */
  predicate KeyAccepted(key: string) {
    0 < Utf8Length(key) <= 2048
  }

  /** The empty key is refused, and every key of 1 to 512 characters is taken. */
  lemma KeyBounds(key: string)
    ensures key == [] ==> !KeyAccepted(key)
    ensures 0 < |key| <= 512 ==> KeyAccepted(key)
  {
  }

  /** The answer to a GetCommand. */
  datatype Lookup = GetFailed | Found(item: Item) | Missing

  /** The item an update sets `Description` on: the stored one, or a new one (an upsert). */
  function Described(t: Table, key: string, d: string): (it: Item)
    ensures it.description == Some(d)
    ensures key in t ==> it.bucket == t[key].bucket
  {
    if key in t then t[key].(description := Some(d)) else Item(None, Some(d))
  }

  /**
   * The database. Each call that can fail takes `fail`, standing for a
   * failure the service reports (network, permissions, throttling); a call
   * on a table that does not exist fails too (ResourceNotFoundException).
   */
  class Database {
    var tables: Tables

    constructor (initial: Tables)
      ensures tables == initial
    {
      tables := initial;
    }

    /** GetCommand: reads and changes nothing. */
    method GetItem(table: string, key: string, fail: bool) returns (r: Lookup)
      ensures r.GetFailed? <==> fail || table !in tables || !KeyAccepted(key)
      ensures r.Found? <==> !fail && table in tables && KeyAccepted(key) && key in tables[table]
      ensures r.Found? ==> r.item == tables[table][key]
    {
      if fail || table !in tables || !KeyAccepted(key) {
        r := GetFailed;
      } else if key in tables[table] {
        r := Found(tables[table][key]);
      } else {
        r := Missing;
      }
    }

    /** PutItem: replaces the whole item stored under `key`. */
    method PutItem(table: string, key: string, item: Item, fail: bool) returns (ok: bool)
      modifies this
      ensures ok <==> !fail && table in old(tables)
      ensures tables == if ok then old(tables)[table := old(tables)[table][key := item]] else old(tables)
    {
      ok := !fail && table in tables;
      if ok {
        tables := tables[table := tables[table][key := item]];
      }
    }

    /** DeleteCommand: removing a key that is not there succeeds and changes nothing. */
    method DeleteItem(table: string, key: string, fail: bool) returns (ok: bool)
      modifies this
      ensures ok <==> !fail && table in old(tables)
      ensures tables == if ok then old(tables)[table := old(tables)[table] - {key}] else old(tables)
    {
      ok := !fail && table in tables;
      if ok {
        tables := tables[table := tables[table] - {key}];
      }
    }

    /**
     * UpdateCommand with `set Description = :description`. An undefined
     * description is removed from the request by the document client
     * (`removeUndefinedValues`), which the service then rejects, as it
     * rejects a key it does not take. On a key that is not stored the
     * update creates the item (an upsert).
     */
    method SetDescription(table: string, key: string, d: Option<string>, fail: bool) returns (ok: bool)
      modifies this
      ensures ok <==> !fail && table in old(tables) && KeyAccepted(key) && d.Some?
      ensures tables == if ok then old(tables)[table := old(tables)[table][key := Described(old(tables)[table], key, d.value)]]
                        else old(tables)
    {
      ok := !fail && table in tables && KeyAccepted(key) && d.Some?;
      if ok {
        tables := tables[table := tables[table][key := Described(tables[table], key, d.value)]];
      }
    }
  }
}
