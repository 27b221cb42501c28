# osa-imessage message ingestion, modelled in Dafny

This project models the core of `osa-imessage`: the part that reads the macOS
Messages store and turns it into a live stream of new messages. It has three
pieces.

- **Time codec.** The store keeps timestamps in Apple seconds, counted from
  2001-01-01. Since macOS 10.13 they carry nine extra decimal digits. The
  codec converts between these timestamps and Unix dates in milliseconds. It
  also packs and unpacks the extended precision.
- **Row grouper (`parseMessages`).** The join query returns one row per
  message and attachment. The grouper folds adjacent rows with the same row
  id into one logical message. That message is the first row, normalised,
  and it carries every row's attachment. Image attachments go to one list;
  any other file goes, with its MIME type, to another.
- **Poller (`listen`).** A per-process singleton that keeps a high-water
  mark `last` and a dictionary of published message ids. A successful poll
  advances the mark. It then publishes each parsed message whose id is not
  yet in the dictionary, recording the id with the new mark. A failed poll
  publishes the error and stops polling for good. Compaction announces the
  current mark.

Modules:

- `Wrappers`: `Option`, standing for JavaScript's `null`/`undefined`.
- `TimeCodec`: the time functions.
- `Text`: the two string rewrites the parser uses.
- `Messages`: rows, messages and per-row normalisation.
- `Grouping`: the grouper. Its reference definition `Parse` cuts the rows
  into maximal runs of one row id. `ParseMessages` is the imperative pass the
  source makes, proved equal to `Parse`.
- `Poller`: the `Poller` class.

Events the source emits are returned as a sequence of `Event` values, in
emission order.

Decisions worth knowing:

- **Grouping key.** The code groups by the row id (`m.rowid`, index.js:258
  and 276), not by the globally unique `messageId`. The model follows the
  code. Deduplication in the poller does use `messageId` (index.js:339).
- **The purge never runs.** `emptyEmittedMsgs` calls `Array.prototype.keys`
  on the key array with a callback (index.js:359). That method ignores its
  argument, so the delete at index.js:361 never runs. Compaction therefore
  only announces the mark: `EmptyEmitted` has no `modifies` clause, and the
  dictionary of published ids only grows.
- **Image test.** A MIME type counts as an image when it is one of the 21
  listed entries (index.js:222-244). A type merely starting with `image/`
  does not count. So HEIC and WebP photos land in the generic attachment
  list (`UnlistedImageTypes`).
- **Falsy values.** JavaScript falsiness is modelled explicitly:
  - a timestamp or `lastTime` that is absent or zero falls back to the clock;
  - a file name counts when it is present and non-empty;
  - `fromMe` is true when the flag is non-zero.
- **Inputs as parameters.** The clock reading (`Date.now()`, Unix
  milliseconds) is a parameter. Whether the system packs timestamps (macOS
  10.13 or later) is a parameter of the codec functions. In the poller it
  is a constant field, fixed when the poller is created, because the
  source reads one OS version for the whole process.

## Model

| member | source | states |
|---|---|---|
| TimeCodec.AppleTimeNow | index.js:40-42 | the result is the clock reading in whole Apple seconds: `(t + offset) * 1000 <= now < (t + offset + 1) * 1000` |
| TimeCodec.AppleTime | index.js:45-47 | an absent or zero timestamp gives the current Apple time; otherwise the result is the timestamp's Apple second, rounded down |
| TimeCodec.UnpackTime | index.js:67-69 | the result is the floor of `ts / 10^9`; it is zero exactly for `0 <= ts < 10^9` |
| TimeCodec.PackTimeConditionally | index.js:73-79 | without extended precision the value is unchanged; with it, unpacking gives the value back and the low nine digits are zero |
| TimeCodec.FromAppleTime | index.js:50-62 | the result is null exactly for timestamp 0; any date is a whole second in milliseconds |
| TimeCodec.UnpackedRoundTrip | index.js:45-69 | for `0 < ts < 10^9`: not unpacked, date is `(ts + 978307200) * 1000`, and `AppleTime` of that date gives `ts` back |
| TimeCodec.ClockRoundTrip | index.js:45-62 | a date stored as an unpacked Apple time converts back to itself truncated to the second |
| TimeCodec.PackedRoundTrip | index.js:50-79 | every non-zero value, packed, converts to the date of the value itself |
| TimeCodec.PackingKeepsDate | index.js:50-79 | packing leaves the converted date unchanged if and only if `-1 <= t < 10^9` |
| TimeCodec.ExtendedPrecision | index.js:57-61 | a timestamp outside `[0, 10^9)` converts through `floor(ts / 10^9)` |
| Text.StripObjectReplacement | index.js:284 | the result holds no U+FFFC and is no longer than the input |
| Text.StripAppend | index.js:284 | stripping distributes over concatenation, so kept characters stay in order |
| Text.StripCounts | index.js:284 | every character other than U+FFFC is kept exactly as often as it occurs; U+FFFC is removed |
| Text.StripKeepsPlainText | index.js:284 | text without U+FFFC is unchanged |
| Text.IndexOf | index.js:260-263 | the result is the first index where the pattern occurs, or none when it never occurs |
| Text.RemoveFirst | index.js:260-263 | the first occurrence of the pattern is cut out; without one the string is unchanged |
| Text.RemoveLeadingPrefix | index.js:260-263 | a leading occurrence is removed and nothing else |
| Messages.AttachmentPath | index.js:260-263 | the path is the file name without its first occurrence of the attachments directory; a file name that starts with that directory loses exactly that prefix |
| Messages.Normalize | index.js:276-288 | the message keeps the row's id, guid and handle; its time is `fromAppleTime` of the row's time; its text is the row's text with every U+FFFC removed, and empty when absent; `fromMe` is the flag's truthiness; it has no attachment lists |
| Messages.AddAttachment | index.js:257-274 | a row without a file name changes nothing; otherwise the image list exists afterwards; an image leaves the generic list alone; no other field changes |
| Messages.IsImage | index.js:265 | a MIME type is an image type exactly when it is present and is one of the listed entries (list membership, not a prefix test) |
| Messages.HasFile | index.js:257 | a row carries an attachment exactly when its file name is present and non-empty (JavaScript truthiness of a string) |
| Messages.ImageTypesAreImages | index.js:222-244 | every listed image type is an `image/` type |
| Messages.NonImageType | index.js:265 | no type outside `image/` counts as an image |
| Messages.UnlistedImageTypes | index.js:265 | HEIC and WebP are not images, PNG is, and a missing type is not |
| Grouping.Runs | index.js:253-291 | there are no more runs than rows; every run is non-empty; the last run belongs to the last row's id |
| Grouping.RunsPartition | index.js:255-291 | the runs concatenate to the rows; each run shares one row id; neighbouring runs have different ids |
| Grouping.FileAttachments | index.js:267-272 | the generic list holds no image type and has at most one entry per row |
| Grouping.AttachmentRows | index.js:257-273 | the generic list is non-empty if and only if some row has a non-image file; the two lists together are non-empty if and only if some row has a file |
| Grouping.Gathered | index.js:256-289 | a run's message has the run's row id |
| Grouping.GatheredLists | index.js:257-273 | the image list exists if and only if some row of the run has a file; the generic list exists if and only if some row has a non-image file |
| Grouping.Parse | index.js:252-292 | at most one message per row; no messages exactly for no rows; the last message belongs to the last row's id |
| Grouping.ParseNeighboursDiffer | index.js:253-291 | no two neighbouring messages share a row id |
| Grouping.GatheredSnoc | index.js:257-278 | a row added to a run adds its attachment to the run's message |
| Grouping.GatheredSingle | index.js:256-289 | a one-row run gives the normalised row with its attachment |
| Grouping.ParseContinuesRun | index.js:256-278 | a row with the last message's id only adds its attachment to that message; its own time and text are discarded |
| Grouping.ParseStartsRun | index.js:276-289 | any other row appends its normalised self with its attachment |
| Grouping.ParseFold | index.js:252-292 | the fold over the first `i` rows equals `Parse` of those rows |
| Grouping.ParseMessages | index.js:252-292 | the one-pass imperative parser returns exactly `Parse(rows)` |
| Grouping.ParseIds | index.js:253-291 | the message ids are the ids of the rows that start a run, in order: the row ids with consecutive repeats collapsed |
| Grouping.ParseKeepsAttachments | index.js:257-273 | over all messages, the image paths and generic attachments are exactly those of the rows, in row order: none lost, duplicated or reordered |
| Grouping.ParseSameIdPair | index.js:256-291 | two rows with one row id parse to one message: the first row with both rows' attachments |
| Grouping.AttachmentGroupingExample | index.js:256-291 | an image row and a PDF row of one message give one message with `["/a.png"]` as images and the PDF as its one generic attachment |
| Poller.UnseenGuids | index.js:338-342 | a poll publishes every parsed message id that was not recorded before, each exactly once, and no other |
| Poller.UnseenStep | index.js:338-342 | a message is published exactly when its id is neither recorded nor carried by an earlier message of the same poll |
| Poller.PublishedOnce | index.js:338-342 | across two consecutive polls no message id is published twice |
| Poller.MarkNeverDecreases | index.js:326-336 | when every returned row has a time at or above the mark, and the clock is at or after Apple's epoch, the new mark is at least the old one |
| Poller.NextMark | index.js:335-337 | the new mark is the last raw row's time, or, when that time is zero, exactly the current Apple time (multiplied by 10^9 when extended: it unpacks to that time and its low nine digits are zero) |
| Poller.Poller.constructor | index.js:294-295 | no event source exists yet, nothing is recorded, the packing setting is fixed for the process, and the class invariant holds |
| Poller.Poller.Listen | index.js:296-305 | a second call changes nothing; the first seeds `last` from a non-zero `lastTime`, else from the packed current Apple time |
| Poller.Poller.Check | index.js:332-345 | no rows change nothing; otherwise `last` becomes `NextMark`; the events are the unseen parsed messages in order; exactly the parsed ids are added, with the new mark; existing entries are unchanged; the no-republication invariant is kept |
| Poller.Poller.Publish | index.js:338-342 | each message whose id is not recorded when reached is published and recorded with the current mark; nothing else changes |
| Poller.Poller.CheckFailed | index.js:346-352 | the error is published, polling halts for good, and the mark and records are unchanged |
| Poller.Poller.EmptyEmitted | index.js:358-366 | compaction announces the current mark and removes no recorded id |

## Left out

- Sending (`send`, `sendFile`) and handle lookup (`handleForName`, `nameForHandle`) are left out. They run JXA scripts inside Messages.app, which is foreign code.
- The SQL query text and `db.all` are left out. The rows a query returns are an input sequence. Nothing guarantees that rows of one message are adjacent, because the polling query has no `ORDER BY`, so grouping takes the rows as given.
- The query operations are left out. `getRecentChats` and `checkExists` are plain queries whose rows are returned as they come. `getMessages`, `getMessageId` and the attachment lookup after `sendFile` are queries followed by `parseMessages`, and `parseMessages` is modelled.
- The retry loops, the `setTimeout`/`setInterval` scheduling and the `EventEmitter` are left out. Emission is the returned event sequence. The loop stopping after an error is the `halted` flag.
- The macOS version check is a boolean: a parameter of the codec and a constant field of the poller. The clock is a parameter.
- The connection handling in `lib/messages-db.js` is not part of this model.
- Logging is left out. So is the `if (bail) return` before the first poll, which can never fire because `bail` is still false there.
- TimeCodec.FromAppleTime: JavaScript numbers are doubles, and packed values above 2^53 lose precision in the source. The model uses unbounded integers. It returns the date as integer milliseconds, not a `Date` object.
- Messages.RawRow: a NULL `date` column is not modelled; `time` is always an integer. In the source, `null == 0` is false, so such a row would get the epoch-offset date rather than null.
- Messages.AddAttachment: its own contract states the shape of the lists. Their contents are stated by GatheredSnoc and ParseKeepsAttachments.
- Poller.Poller.Check: only the query failing is modelled as a failed poll. An exception thrown later, by parsing or by a listener, is not.
