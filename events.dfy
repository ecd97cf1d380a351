/**
 * The events the three handlers receive, already parsed from JSON, and the
 * outcomes a handler invocation can end in.
 *
 * An S3 event notification holds a list of records, each naming a bucket and
 * an object key (still '+'- and percent-encoded). It reaches processImage as
 * the body of an SQS message that wraps an SNS envelope, and reaches
 * processDelete and processUpdate as the message of an SNS record.
 */
module Events {
  import opened Wrappers

  /** `messageRecord.s3.bucket.name` and `messageRecord.s3.object.key`. */
  datatype S3Record = S3Record(bucket: string, key: string)

  /** What `JSON.parse` makes of a text: a thrown SyntaxError, or a value. */
  datatype Json<T> = Malformed | Parsed(value: T)

  /**
   * The parsed SNS message. An S3 notification has `Records`; a caption
   * message published on the same topic has `name` and `description`.
   * Each field is absent (`None`) when the JSON object lacks it.
   */
  datatype Notification = Notification(
    records: Option<seq<S3Record>>,
    name: Option<string>,
    description: Option<string>)

  /**
   * The parsed body of an SQS record (processImage.ts:22): its own
   * `Records` field, and its `Message` field parsed once more (line 23).
   * A body without `Message` has `message == Malformed`, since
   * `JSON.parse(undefined)` throws; a raw-delivered S3 event (`Records`
   * present, no `Message`) is such a body.
   */
  datatype QueueBody = QueueBody(records: Option<seq<S3Record>>, message: Json<Notification>)

  /**
   * An SNS record (processDelete.ts:17, processUpdate.ts:9-12): the parsed
   * `Sns.Message` and the `Value` of the `comment_type` message attribute,
   * `None` when that attribute is absent.
   */
  datatype SnsRecord = SnsRecord(message: Json<Notification>, commentType: Option<string>)

  /**
   * How one invocation ends: normally, or with the first error thrown.
   * The messages of the source's errors are not modelled, only their kinds.
   */
  datatype Outcome =
    | Ok
    | MalformedMessage  // JSON.parse threw
    | DecodeFailed      // decodeURIComponent threw a URIError
    | NoExtension       // "Could not determine the image type."
    | UnsupportedType   // "Unsupported image type: ${imageType. "
    | FetchFailed       // the S3 GetObject call failed
    | StoreFailed       // the DynamoDB put or delete failed
    | UpdateFailed      // "The image you're updating doesn't exist."

  /** The three errors the key validation can throw. */
  predicate IsValidationError(o: Outcome) {
    o == DecodeFailed || o == NoExtension || o == UnsupportedType
  }

  /**
   * Where a call is made: (index in `event.Records`, index in the inner
   * `Records` list). The caption handler has no inner list and uses 0.
   */
  type Pos = (nat, nat)

  /**
   * The calls into S3 and DynamoDB that fail, by position: an oracle that
   * stands for the network, permissions and throttling.
   */
  datatype Faults = Faults(fetch: set<Pos>, read: set<Pos>, write: set<Pos>)

  /**
   * One step of a handler's nested loops, flattened: a message whose JSON
   * does not parse, which throws before its records are reached, or one S3
   * record to handle at its position.
   */
  datatype Task = Abort | Handle(record: S3Record, pos: Pos)

  /** The records `rs[j..]` of the message at index i, as tasks. */
  function RecordTasks(rs: seq<S3Record>, i: nat, j: nat): (ts: seq<Task>)
    ensures |ts| == if j <= |rs| then |rs| - j else 0
    ensures forall k :: 0 <= k < |ts| ==> ts[k] == Handle(rs[j + k], (i, j + k))
    decreases |rs| - j
  {
    if j >= |rs| then [] else [Handle(rs[j], (i, j))] + RecordTasks(rs, i, j + 1)
  }
}
