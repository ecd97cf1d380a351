# Image pipeline handlers: a Dafny model

This pipeline catalogues images uploaded to an S3 bucket. Three Lambda
handlers keep a DynamoDB table of images in step with the bucket:

- **processImage** is an SQS consumer. It receives the bucket's creation
  notifications, which reach it through an SNS topic. For each S3 record it
  decodes the object key and checks that the key ends in ".jpeg" or ".png",
  in any ASCII case. It then fetches the object and puts
  `{ImageName: key, Bucket: bucket}` into the "Images" table.
- **processDelete** is an SNS consumer. It validates each deleted object's
  key in the same way, then deletes the item under that key.
- **processUpdate** is an SNS consumer. It handles caption messages, whose
  `comment_type` attribute is "Caption". For each one it reads the item the
  message names and, when the item exists, sets its `Description`.

Each handler runs its records in order. The first error it throws ends the
invocation and leaves in place everything written before it.

The model has these modules:

- `ObjectKey`: the raw key's decoding, `decodeURIComponent` after every
  '+' becomes a space. It follows `decodeURIComponent` (section 19.2.6.2 of
  ECMA-262) and the Decode operation it uses, UTF-8 rules included. Its partner is an encoder that writes a key the way a
  notification carries it. The two are connected by the round trip
  `DecodeKey(EncodeKey(k)) == Some(k)`.
- `ImageType`: the type suffix after the last '.', and the allow-list.
- `KeyCheck`: the validation both handlers share.
- `Events`: the parsed events and the outcomes a handler can end in. It
  also holds the fault oracle, which stands for failing S3 and DynamoDB
  calls.
- `Store`: DynamoDB, as a `Database` class with a `tables` field. Its
  calls update that field in place.
- `ProcessImage`, `ProcessDelete` and `ProcessUpdate`: one module per
  handler.

Each handler module has the same structure:

- A specification function runs the handler's records as one flat task
  list over the tables.
- Methods pair up with the source's loops. Each is proved to end in exactly
  the outcome and tables the specification function gives.
- A closed form describes the handler's effect without stepping through the
  tables: overlay the planned puts, remove the planned keys, or patch the
  planned descriptions.
- Lemmas are proved from the closed form. They cover idempotence under
  redelivery, "the first error stops the batch", "nothing else changes", and
  what a batch that ends in `Ok` has stored.

Three behaviours of the code are worth stating outright:

- processImage.ts:41 accepts only "jpeg" and "png", so a key such as
  "vacation.jpg" is rejected with "Unsupported image type"
  (`ImageType.JpgRejected`).
- processUpdate.ts:22 updates only when the read finds an item. A caption
  for an image that is not stored ends normally and writes nothing
  (`ProcessUpdate.MissingImageIgnored`). The name is passed to the read
  unchecked (processUpdate.ts:16-21), so a caption named "" fails at the
  service and ends in "The image you're updating doesn't exist."
  (`ProcessUpdate.EmptyNameFails`).
- The catch at processUpdate.ts:40-43 also catches the error thrown at
  line 37. So a failed read and a failed update both end in the one error
  "The image you're updating doesn't exist." (`ProcessUpdate.Attempt`).

## Model

| member | source | states |
|---|---|---|
| ObjectKey.ReplacePlus | lambdas/processImage.ts:32 | every '+' becomes a space and every other character is kept, so no '+' is left |
| ObjectKey.PercentDecode | lambdas/processImage.ts:32 | decodeURIComponent never lengthens the text; None stands for the URIError |
| ObjectKey.DecodeGroup | lambdas/processImage.ts:32 | a decoded escape group takes at least one escape (3 characters), and no more than the text holds |
| ObjectKey.DecodeKey | lambdas/processImage.ts:32 | a key with no '%' always decodes, to the key with its '+' turned into spaces |
| ObjectKey.BrokenEscapeFails | lambdas/processImage.ts:32 | a '%' not followed by two hex digits makes the decode throw |
| ObjectKey.MissingContinuationFails | lambdas/processImage.ts:32 | an escape that opens an n-byte UTF-8 sequence must be followed by n - 1 escapes of continuation bytes; if one is missing or is not 10xxxxxx, the decode throws |
| ObjectKey.Unescaped | lambdas/processImage.ts:32 | text without '%' decodes to itself |
| ObjectKey.LiteralPrefix | lambdas/processImage.ts:32 | text without '%' in front of anything is copied as is, and a failure behind it is still a failure |
| ObjectKey.EscapeBetweenLiterals | lambdas/processImage.ts:32 | one escape below 0x80 between unescaped text decodes to its single character |
| ObjectKey.EscapeInKey | lambdas/processImage.ts:32 | '+' is replaced before escapes are decoded: around one ASCII escape, the '+'s become spaces and the escape becomes its character |
| ObjectKey.EscapedPlusKept | lambdas/processImage.ts:32 | an escaped "%2B" is a '+' in the stored name, not a space |
| ObjectKey.PlusIsSpaceExample | lambdas/processImage.ts:31-32 | "my+photo%20v2.png" is stored as "my photo v2.png" |
| ObjectKey.MalformedEscapeExample | lambdas/processImage.ts:32 | "bad%ZZ.png" makes the decode throw |
| ObjectKey.NonContinuationExample | lambdas/processImage.ts:32 | "%C3%41" makes the decode throw: 0x41 cannot continue the sequence 0xC3 opens |
| ObjectKey.TruncatedSequenceExample | lambdas/processImage.ts:32 | "half%C3.png" (a lead byte that has no continuation) makes the decode throw |
| ObjectKey.EncodeKey | lambdas/processImage.ts:31-32 | a key as a notification writes it has no spaces |
| ObjectKey.DecodeEncoded | lambdas/processImage.ts:31-32 | every key, however many spaces or non-ASCII characters it has, decodes back from its notification form |
| ImageType.LastDot | lambdas/processImage.ts:34 | the position of a '.' with no '.' after it, or None when there is no '.' |
| ImageType.TypeSuffix | lambdas/processImage.ts:34-38 | the match is null exactly when the key has no '.'; otherwise the capture is the dot-free text after the last '.' |
| ImageType.Lower | lambdas/processImage.ts:40 | same length, each character lower-cased |
| ImageType.Classify | lambdas/processImage.ts:34-44 | NoExtension exactly when there is no '.'; an accepted type is "jpeg" or "png"; a rejected one is neither |
| ImageType.ClassifyBySuffix | lambdas/processImage.ts:34-44 | the verdict depends only on the lower-cased text after the last '.' |
| ImageType.AcceptedSpellings | lambdas/processImage.ts:40-41 | accepted exactly when the suffix lower-cases to "jpeg" or "png" |
| ImageType.LowerCaseSuffix | lambdas/processImage.ts:40-43 | a suffix without upper-case letters is accepted exactly when it is "jpeg" or "png", and is otherwise rejected as it is |
| ImageType.UpperCaseAccepted | lambdas/processImage.ts:40-41 | ".PNG" is accepted as "png", whatever precedes it |
| ImageType.JpgRejected | lambdas/processImage.ts:41-43 | ".jpg" is rejected |
| ImageType.EmptySuffixRejected | lambdas/processImage.ts:34-43 | a key ending in '.' matches with an empty type, which is rejected |
| KeyCheck.CheckKey | lambdas/processImage.ts:32-44 | a key passes exactly when it decodes and its type is accepted, and then under its decoded name; a decode failure comes before the type check; a key without '.' gives NoExtension exactly |
| KeyCheck.Target | lambdas/processDelete.ts:25-37 | the item key a task writes, present exactly for a record whose key passes validation |
| KeyCheck.CheckEncoded | lambdas/processImage.ts:31-44 | a notification-encoded key validates to itself when its type is accepted, and otherwise gives the error its suffix calls for |
| KeyCheck.UpperCaseKeyPasses | lambdas/processImage.ts:32-44 | "A.PNG" is stored as "A.PNG": lower-casing only decides the verdict |
| Store.Described | lambdas/processUpdate.ts:24-35 | `set Description` sets the description and keeps the rest of a stored item |
| Store.CharBytes | lambdas/processUpdate.ts:16-21 | a character takes 1 to 4 bytes in UTF-8 |
| Store.Utf8Length | lambdas/processUpdate.ts:16-21 | a text takes at least one and at most four bytes per character in UTF-8 |
| Store.KeyBounds | lambdas/processUpdate.ts:16-21 | the service refuses the empty key and takes every key of 1 to 512 characters |
| Store.Database.GetItem | lambdas/processUpdate.ts:16-21 | a GetCommand changes nothing; it fails on a fault, a missing table, or a key that is empty or longer than 2048 UTF-8 bytes, and returns the stored item exactly when there is one |
| Store.Database.PutItem | lambdas/processImage.ts:54-60 | the put replaces the whole item under its key and nothing else, or fails and changes nothing |
| Store.Database.DeleteItem | lambdas/processDelete.ts:40-48 | the delete removes that key only, and succeeds when the key is absent as well |
| Store.Database.SetDescription | lambdas/processUpdate.ts:24-35 | the update succeeds exactly when there is no fault, the table exists, the key is one the service takes and a description is given; it then sets that key's description and keeps its bucket, and on a key that is not stored it creates the item with only a description (an upsert, as UpdateItem does); nothing else changes |
| Events.RecordTasks | lambdas/processImage.ts:28 | the inner loop reaches the records in order, each at its position |
| ProcessImage.BodyTasksWalked | lambdas/processImage.ts:22-28 | both parses come before any record: a body or message that does not parse is a single abort; otherwise the tasks are the walked list's records, in order, each at its position |
| ProcessImage.QueueTasksWalked | lambdas/processImage.ts:21-28 | every handled task is the record at its (message, record) position of the list walked in that message; an abort is present exactly when some body or message does not parse |
| ProcessImage.Entry | lambdas/processImage.ts:56-59 | the item put holds the bucket name and no description |
| ProcessImage.Attempt | lambdas/processImage.ts:32-52 | Ok exactly when the key passes, the fetch succeeds and the put succeeds; a refused key ends in the very error validation gives (NoExtension for a key without '.'); FetchFailed and StoreFailed in that order |
| ProcessImage.Step | lambdas/processImage.ts:46-60 | a failure changes nothing; a success puts the record's item under its decoded key, and nothing else |
| ProcessImage.Ingest | lambdas/processImage.ts:21-66 | ingestion creates or deletes no table, changes only "Images", and never removes an image |
| ProcessImage.IngestClosedForm | lambdas/processImage.ts:54-60 | a batch's effect is the old "Images" table overlaid with the items it puts, later records winning |
| ProcessImage.NoTableNoChange | lambdas/processImage.ts:54-60 | without an "Images" table, nothing is written |
| ProcessImage.IngestIdempotent | lambdas/processImage.ts:54-60 | a redelivered batch ends the same way and leaves the same tables |
| ProcessImage.IngestAppend | lambdas/processImage.ts:21-66 | the second half of a batch runs only when the first half ended in Ok, and starts from its tables |
| ProcessImage.IngestOne | lambdas/processImage.ts:29-60 | a one-record batch is one step |
| ProcessImage.FirstErrorStops | lambdas/processImage.ts:62-65 | at the first error, earlier writes stay and later records are not attempted |
| ProcessImage.PlannedOk | lambdas/processImage.ts:21-66 | in a batch that ends in Ok, every task was a record that passed and stored, and the last record for a key is the one stored |
| ProcessImage.UntargetedNotPut | lambdas/processImage.ts:54-60 | a key no record of the batch names is not put |
| ProcessImage.IngestOkStoredAll | lambdas/processImage.ts:54-60 | after a batch that ends in Ok, the item of the last record for each key is stored with no description, and every other image keeps its item |
| ProcessImage.NoRecordsNoChange | lambdas/processImage.ts:26 | a message whose walked list is absent is skipped |
| ProcessImage.RawDeliveryAborts | lambdas/processImage.ts:22-23 | a raw-delivered S3 event (`Records`, no `Message`) throws at the second parse and changes nothing, before any record |
| ProcessImage.AsWrittenSkipsNotifications | lambdas/processImage.ts:26-28 | as written, no S3 notification delivered through SNS is ever ingested, and the handler ends in Ok |
| ProcessImage.IntendedStoresNotification | lambdas/processImage.ts:23-28 | walking the parsed message's records, a delivered notification with a valid record is stored |
| ProcessImage.HandleRecord | lambdas/processImage.ts:29-65 | one S3 record in place: exactly the outcome and tables of `Step` |
| ProcessImage.HandleRecords | lambdas/processImage.ts:28-66 | the inner loop: exactly the outcome and tables of ingesting the record list |
| ProcessImage.HandleBody | lambdas/processImage.ts:22-67 | one SQS record: both parses and then the inner loop |
| ProcessImage.IngestBody | lambdas/processImage.ts:21-68 | the outer loop runs body i, then the later bodies from its tables, and stops when body i ends in an error |
| ProcessImage.Handler | lambdas/processImage.ts:19-69 | the handler: exactly the outcome and tables of ingesting the batch's task list |
| ProcessDelete.NoticeTasksWalked | lambdas/processDelete.ts:17-21 | the parse comes before any record: a message that does not parse is a single abort; otherwise the tasks are its `Records`, in order, each at its position |
| ProcessDelete.EventTasksWalked | lambdas/processDelete.ts:15-21 | every handled task is the record at its (message, record) position; an abort is present exactly when some message does not parse |
| ProcessDelete.Attempt | lambdas/processDelete.ts:25-54 | Ok exactly when the key passes and the delete succeeds; a refused key ends in the very error validation gives (NoExtension for a key without '.'); otherwise StoreFailed |
| ProcessDelete.Step | lambdas/processDelete.ts:40-54 | a failure changes nothing; a success removes the decoded key and keeps every other item and table |
| ProcessDelete.Remove | lambdas/processDelete.ts:15-58 | deletion creates or deletes no table, changes only "Images", and never adds or alters an item |
| ProcessDelete.RemoveClosedForm | lambdas/processDelete.ts:40-48 | a batch's effect is the old table minus the keys it deletes |
| ProcessDelete.NoTableNoChange | lambdas/processDelete.ts:40-54 | without an "Images" table, nothing is written |
| ProcessDelete.RemoveIdempotent | lambdas/processDelete.ts:40-48 | a redelivered batch ends the same way and leaves the same tables |
| ProcessDelete.RemoveAppend | lambdas/processDelete.ts:15-56 | the second half of a batch runs only when the first half ended in Ok |
| ProcessDelete.RemoveOne | lambdas/processDelete.ts:22-54 | a one-record batch is one step |
| ProcessDelete.FirstErrorStops | lambdas/processDelete.ts:50-54 | at the first error, earlier deletions stay and later records are not attempted |
| ProcessDelete.UntargetedNotDeleted | lambdas/processDelete.ts:40-48 | a key no record of the batch names is not deleted |
| ProcessDelete.PlannedOk | lambdas/processDelete.ts:15-56 | in a batch that ends in Ok, every task was a record that passed, and its key is among those deleted |
| ProcessDelete.RemoveOkDeletesAll | lambdas/processDelete.ts:40-48 | after a batch that ends in Ok, every named image is gone and every other image keeps its item |
| ProcessDelete.MessagesWithoutRecordsSkipped | lambdas/processDelete.ts:19 | messages without `Records`, such as captions on the same topic, are skipped and change nothing |
| ProcessDelete.HandleRecord | lambdas/processDelete.ts:22-54 | one S3 record in place: exactly the outcome and tables of `Step` |
| ProcessDelete.HandleRecords | lambdas/processDelete.ts:21-56 | the inner loop: exactly the outcome and tables of deleting the record list |
| ProcessDelete.HandleNotice | lambdas/processDelete.ts:17-57 | one SNS record: the parse and then the inner loop |
| ProcessDelete.Handler | lambdas/processDelete.ts:13-59 | the handler: exactly the outcome and tables of deleting the batch's task list |
| ProcessUpdate.IsCaption | lambdas/processUpdate.ts:12 | the guard: the `comment_type` attribute is present and its value is exactly "Caption" |
| ProcessUpdate.Attempt | lambdas/processUpdate.ts:9-43 | a description is set exactly when the message parses, is a caption, the table exists, the read and the update succeed, the named item is stored and a description is given; UpdateFailed exactly when a parsed caption has no name, the table is missing, the name is empty or longer than 2048 UTF-8 bytes, the read fails, or the item is stored and the description is missing or the update fails; a non-caption is Ok and does nothing; a caption for a missing image is Ok and does nothing |
| ProcessUpdate.Step | lambdas/processUpdate.ts:12-43 | a failure, and a record that sets no description, changes nothing; a success keeps every key and bucket, and every item the record does not name keeps its item, description included |
| ProcessUpdate.Captions | lambdas/processUpdate.ts:8-45 | the only errors are a parse failure and UpdateFailed; no item is added, removed or moved to another bucket; other tables are unchanged |
| ProcessUpdate.Patched | lambdas/processUpdate.ts:29-31 | patching keeps keys and buckets, and sets the planned description only on stored items |
| ProcessUpdate.PatchAfterSet | lambdas/processUpdate.ts:29-35 | one update followed by a patch is one patch, later descriptions winning |
| ProcessUpdate.PatchedTwice | lambdas/processUpdate.ts:29-31 | patching twice with the same descriptions is patching once |
| ProcessUpdate.CaptionsClosedForm | lambdas/processUpdate.ts:21-35 | a batch's effect on an existing table is the old table with the planned descriptions set |
| ProcessUpdate.CaptionsIdempotent | lambdas/processUpdate.ts:29-35 | a redelivered batch of captions ends the same way and leaves the same tables |
| ProcessUpdate.CaptionsAppend | lambdas/processUpdate.ts:8-42 | the second half of a batch runs only when the first half ended in Ok |
| ProcessUpdate.UntargetedNotPatched | lambdas/processUpdate.ts:13-31 | a key that no record of the batch names gets no planned description |
| ProcessUpdate.CaptionsKeepUnnamed | lambdas/processUpdate.ts:8-45 | after a batch, an image that no record names keeps its item, description included |
| ProcessUpdate.IgnoresNonCaptions | lambdas/processUpdate.ts:12 | records that are not captions cause no read and no write |
| ProcessUpdate.MissingImageIgnored | lambdas/processUpdate.ts:21-39 | a caption for an image that is not stored, under a name the service takes as a key, ends in Ok and changes nothing |
| ProcessUpdate.EmptyNameFails | lambdas/processUpdate.ts:13-42 | a caption named "" fails the read under any faults and ends in UpdateFailed with nothing written |
| ProcessUpdate.CaptionTableMissing | lambdas/processUpdate.ts:16-25 | as written, against the tables the stack creates, every caption fails with UpdateFailed and changes nothing |
| ProcessUpdate.CaptionOnImagesTable | lambdas/processUpdate.ts:16-35 | against "Images", a caption for a stored image whose name the service takes sets its description and keeps its bucket |
| ProcessUpdate.HandleRecord | lambdas/processUpdate.ts:9-43 | one SNS record in place: exactly the outcome and tables of `Step` |
| ProcessUpdate.Handler | lambdas/processUpdate.ts:7-47 | the handler: exactly the outcome and tables of `Captions` over the batch |

## Left out

- The S3 and DynamoDB clients and the network are left out. The model
  replaces them with the `Database` class and the `Faults` oracle, which says
  which calls fail.
- The object fetched at processImage.ts:52 is not modelled. The handler
  never uses it; only whether the fetch fails matters.
- `JSON.parse` is not modelled: events arrive parsed, with a Malformed case
  for a parse that throws. A record whose fields have the wrong shape (an S3
  record with no `s3` field, say) throws a TypeError in the source. The
  model has no such records.
- Logging is left out. So are the exact error messages, which the model
  keeps only as outcome kinds. The model does not reproduce the literal
  texts with an uninterpolated `${...}` (processImage.ts:43,
  processDelete.ts:53).
- ImageType.Lower: `toLowerCase` is modelled on ASCII letters only. The only
  non-ASCII characters whose lower case holds an ASCII letter are U+212A
  (k) and U+0130 (i and a combining dot). Neither gives a letter of "jpeg"
  or "png". So the accept/reject verdict is exact; only the text of a
  rejected type can differ.
- Astral characters are out of scope. `decodeURIComponent` yields one
  `char` for one decoded scalar value, where JavaScript yields a pair of
  UTF-16 code units.
- The document client's `convertEmptyValues` is modelled only for keys,
  which the service then refuses (`Store.KeyAccepted`). An empty
  description is stored as `Some("")`.
- Store.Database.PutItem and Store.Database.DeleteItem: the service's key
  bounds are not checked there. A key that passes validation holds a '.', so
  it is not empty, and it is the decoded S3 key, at most 1024 bytes.
- Several AWS behaviours are left out:
  - Lambda concurrency;
  - the asynchrony of each call;
  - SQS batch size and batching window;
  - retries and dead-letter queues.

  The model runs one invocation over one batch, in order.
- The mailer handlers are not part of this model, and neither is the CDK
  stack (lib/eda-app-stack.ts). The model uses only two facts from the
  stack:
  - the table it creates is named "Images";
  - the queue subscription has no raw message delivery.
- Events with no `Records` array at the top are not modelled. Lambda
  always gives a handler one. A caption record with no `MessageAttributes`
  is not modelled either, because SNS always supplies the field.

## Findings

| source | as written | input that shows it | evidently intended | confidence | as-written member | corrected member |
|---|---|---|---|---|---|---|
| lambdas/processImage.ts:26-28 | the inner loop walks `recordBody.Records`, a field of the SNS envelope; the queue subscribes to the topic without raw delivery (lib/eda-app-stack.ts:119), so the envelope has no `Records` and the loop never runs | an SQS body `{"Type":"Notification","Message":"{\"Records\":[{\"s3\":{\"bucket\":{\"name\":\"b\"},\"object\":{\"key\":\"a.png\"}}}]}"}`: the handler returns and "Images" is unchanged | walk `snsMessage.Records`, the records of the parsed S3 notification | not executed | ProcessImage.AsWrittenSkipsNotifications | ProcessImage.IntendedStoresNotification |
| lambdas/processUpdate.ts:16-25 | the read and the update name the table 'ImageTable', but the stack creates only "Images" | a caption message `{"name":"a.png","description":"Sunset"}` with `comment_type` "Caption", where "a.png" is stored in "Images": the read fails, and the handler throws "The image you're updating doesn't exist." | read and update the "Images" table | not executed | ProcessUpdate.CaptionTableMissing | ProcessUpdate.CaptionOnImagesTable |
