# Conversation restart and replay queues

This project models the queue that the Bot Framework Emulator client uses to
replay a recorded conversation into a new one. The queue exists as two separate
classes, and the model keeps them separate:

- `RestartQueue.ConversationQueue` (`restart_queue.dfy`) models
  `ConversationQueue` in `restartConversationQueue.ts`.
  - From the recorded activities it builds two maps keyed by user activity id:
    - `replayActivities` holds a rewritten replay copy of each user activity;
    - `restartFlow` holds a snapshot of the per-id occurrence counts of the
      non-user activities that came before it.
  - `traverseRestartFlowMap` decrements every snapshot for one live activity
    id and appends every user id whose snapshot is then empty to the ready list
    `activitiesToBeProcessed`.
  - `getNextActivityInQueue` pops the front id and rewrites the attachments of
    its replay activity into object URLs.
- `ReplayQueue.ConversationQueue` (`replay_queue.dfy`) models the older
  `ConversationQueue` in `replayConversationQueue.ts`.
  - It builds the rewritten user messages to re-post.
  - It groups the bot activities by `replyToId`, as lodash's `groupBy` does.
  - It files every live activity under the `originalActivityId` in its channel
    data.
- `DataUrl.DataUrlToFile` (`data_url.dfy`) models `dataURLtoFile`, which both
  classes contain in identical form. It is built from three parts:
  - `split(',')`;
  - the regular expression `/:(.*?);/`;
  - `atob`, modelled in `base64.dfy` as the forgiving-base64 decode of the
    WHATWG Infra Standard over the alphabet of section 4 of RFC 4648. The
    padded encoder of RFC 4648 is given beside it, and `atob` is proved to
    invert it.
- `Activities` (`activities.dfy`) holds the activity and attachment records and
  the replay copy that both classes make:
  - `conversation.id` becomes the new conversation id;
  - `channelData.originalActivityId` becomes the recorded id;
  - every other property is kept.

The model follows the code as written, including these behaviours:

- Each non-user activity increments the count of its own `id`, not of its
  `replyToId` (`restartConversationQueue.ts:87`).
- The decremented count is stored under the user activity's own id rather than
  under the incoming id (`restartConversationQueue.ts:99,101`). As a result, a
  user activity that waits on an earlier activity never becomes ready, unless
  a live activity carries the user activity's own id
  (`RestartQueue.WaitingUserNeverReady`).
- `activitiesToBeProcessed` is declared but never initialised
  (`restartConversationQueue.ts:40`). The model starts it empty.
- `getNextActivityInQueue` returns nothing even when it pops an id. A
  malformed data URL, or an attachment without a string `contentUrl`, makes it
  throw after the id was removed
  (`restartConversationQueue.ts:111-127`). The model returns a `Completion`
  that says which of the two happened.

Browser services are parameters:

- `createObjectURL` is the function field `createObjectUrl` of the restart
  queue;
- `atob` is modelled concretely;
- `File` is the record of bytes, name and `type`; the `type` is the media
  type as the `File` constructor normalises it (ASCII lower case, or empty
  when it holds a character outside U+0020 to U+007E).

## Model

| member | source | states |
|---|---|---|
| RestartQueue.ConversationQueue.constructor | packages/app/client/src/utils/restartConversationQueue.ts:43-50 | stores the recording, conversation id and URL factory, builds both maps from the recording alone, starts with an empty ready list, and establishes the queue invariant |
| RestartQueue.ConversationQueue.BuildActivityQueue | packages/app/client/src/utils/restartConversationQueue.ts:66-90 | the loop leaves `restartFlow`, its key order and `replayActivities` equal to the fold of the whole recording, and establishes the queue invariant (shared keys = recorded user ids, each key once in the order, positive counts) |
| RestartQueue.ReplyCountsCountOccurrences | packages/app/client/src/utils/restartConversationQueue.ts:69-88 | an id has a count exactly when a non-user activity with that id was seen, and the count is the number of such activities |
| RestartQueue.BuiltKeys | packages/app/client/src/utils/restartConversationQueue.ts:71-85 | both maps have exactly the recorded user ids as keys, the insertion order lists each of them once, and every snapshot count is at least one |
| RestartQueue.BuiltEntries | packages/app/client/src/utils/restartConversationQueue.ts:71-85 | an id is a key exactly when a user activity has it; the last user activity with the id wins, its replay copy is stored and its snapshot is the counts of the activities before it |
| Activities.ReplayCopy | packages/app/client/src/utils/restartConversationQueue.ts:73-83 | the copy differs from the original only in `channelData.originalActivityId` (set to the recorded id) and `conversation.id` (set to the new conversation id); all other channel-data and conversation properties are kept |
| RestartQueue.DecrementTouchesOwnKeyOnly | packages/app/client/src/utils/restartConversationQueue.ts:94-103 | a snapshot without a non-zero count for the incoming id is unchanged; otherwise only the user's own key changes, vanishing exactly when the count was one and holding the count less one otherwise; positive counts stay positive |
| RestartQueue.VisitKeys | packages/app/client/src/utils/restartConversationQueue.ts:93-108 | visiting the keys in insertion order decrements every snapshot, and appends exactly the keys whose snapshot is then empty, in insertion order |
| RestartQueue.ConversationQueue.TraverseRestartFlowMap | packages/app/client/src/utils/restartConversationQueue.ts:92-109 | `restartFlow` becomes the decremented snapshots over the same keys, the ready list is extended by the ids whose snapshot is now empty, and the queue invariant is kept |
| RestartQueue.ReadyIdsMembers | packages/app/client/src/utils/restartConversationQueue.ts:105-107 | an id is appended exactly when it is a key whose snapshot is empty |
| RestartQueue.TraversalKeepsCountsPositive | packages/app/client/src/utils/restartConversationQueue.ts:96-102 | after a traversal every stored count is still at least one |
| RestartQueue.WaitingUserNeverReady | packages/app/client/src/utils/restartConversationQueue.ts:95-102 | a user id with a non-empty snapshot keeps a non-empty snapshot through any sequence of live ids that does not contain its own id |
| RestartQueue.EmptySnapshotReadyAgain | packages/app/client/src/utils/restartConversationQueue.ts:105-107 | a user id whose snapshot is already empty is appended again by every later traversal |
| RestartQueue.RehydrationMeaning | packages/app/client/src/utils/restartConversationQueue.ts:116-122 | the mapped attachment list exists exactly when every attachment decodes; it then has the same length and each element is the attachment with `contentUrl` replaced by the object URL of its file; otherwise the error is that of the first attachment that fails |
| RestartQueue.RehydrationErrorPersists | packages/app/client/src/utils/restartConversationQueue.ts:116-122 | once an attachment throws, the map as a whole throws that error |
| RestartQueue.DecodeAttachment | packages/app/client/src/utils/restartConversationQueue.ts:117 | an attachment throws `NotAString` (the TypeError of `dataurl.split`) exactly when its `contentUrl` is not a string; otherwise it yields what `dataURLtoFile` does for that data URL and name |
| RestartQueue.RehydrateAttachment | packages/app/client/src/utils/restartConversationQueue.ts:117-121 | one callback of the map: the decoded file's object URL replaces `contentUrl`, or the decoding error is thrown |
| RestartQueue.RehydrateAttachments | packages/app/client/src/utils/restartConversationQueue.ts:116-122 | running the callbacks in order gives the list characterised by `RehydrationMeaning`, stopping at the first error |
| RestartQueue.ConversationQueue.GetNextActivityInQueue | packages/app/client/src/utils/restartConversationQueue.ts:111-127 | with an empty ready list nothing changes; otherwise the front id is removed and its replay activity's attachments are rewritten, or, when a data URL is malformed or an attachment has no string `contentUrl`, the error is thrown and the replay activity is left as it was; no activity is returned; the invariant is kept |
| DataUrl.DataUrlToFile | packages/app/client/src/utils/restartConversationQueue.ts:52-64 | the method yields the file of `ParseDataUrl`: the media type match fails first, then `atob`, otherwise the bytes are the char codes modulo 256 and the type is the normalised media type |
| DataUrl.BlobType | packages/app/client/src/utils/restartConversationQueue.ts:63 | the `type` stored by `new File(..., { type: mime })` is always printable lower-case ASCII; it has the length of `mime` exactly when every character of `mime` is in U+0020–U+007E, and is then `mime` lower-cased character by character; otherwise it is empty |
| DataUrl.CopyCharCodes | packages/app/client/src/utils/replayConversationQueue.ts:147-153 | the downward `while (n--)` loop fills a fresh array of the string's length with every char code modulo 256 |
| DataUrl.SplitPieces | packages/app/client/src/utils/restartConversationQueue.ts:53 | no piece of `split(',')` contains a comma and joining the pieces with commas gives the input back |
| DataUrl.MimeMatchFromSpec | packages/app/client/src/utils/restartConversationQueue.ts:54 | `/:(.*?);/` matches exactly when some `:` reaches a `;` without a line terminator between; the capture is the text between the first such `:` and the nearest `;` after it |
| DataUrl.MediaTypeField | packages/app/client/src/utils/restartConversationQueue.ts:53-54 | the media type is read only from the text before the first comma; the file fails with `MimeNotMatched` exactly when that text has no `:…;`, and otherwise carries the first capture as the `File` constructor normalises it |
| DataUrl.NoCommaFails | packages/app/client/src/utils/replayConversationQueue.ts:145-147 | without a comma, `atob` receives "undefined" (nine characters) and throws |
| DataUrl.BytesAreCharCodes | packages/app/client/src/utils/restartConversationQueue.ts:55-61 | the file has exactly as many bytes as the decoded string has characters, and byte i is the code of character i (no truncation happens) |
| DataUrl.ParseDataUrlRoundTrip | packages/app/client/src/utils/restartConversationQueue.ts:52-64 | for a media type without `,`, `;` or a line terminator (so no RFC 2397 parameters such as `;charset=`), `data:<mime>;base64,<encoding of b>` gives back exactly the bytes b and the given name, with the normalised media type; a printable lower-case media type comes back unchanged |
| Base64.StripWhitespaceSpec | packages/app/client/src/utils/restartConversationQueue.ts:55 | stripping leaves no ASCII whitespace, drops each single whitespace character entirely, and leaves text without whitespace alone |
| Base64.StripWhitespaceConcat | packages/app/client/src/utils/restartConversationQueue.ts:55 | stripping distributes over concatenation, so with the two facts above the result is exactly the characters that are not whitespace, in their order |
| Base64.CharOf | packages/app/client/src/utils/restartConversationQueue.ts:55 | every six-bit value has an alphabet character that decodes back to it |
| Base64.GroupRoundTrip | packages/app/client/src/utils/restartConversationQueue.ts:55 | each of three bytes is recovered from the two six-bit values that hold its bits |
| Base64.DecodeEncodeSextets | packages/app/client/src/utils/restartConversationQueue.ts:55 | decoding the encoder's six-bit values gives the bytes back |
| Base64.EncodeSextetsLength | packages/app/client/src/utils/restartConversationQueue.ts:55 | the encoder's output length modulo four is 0, 2 or 3 as the byte count modulo three is 0, 1 or 2, so it never has the length `atob` refuses |
| Base64.StripPaddingOfEncode | packages/app/client/src/utils/restartConversationQueue.ts:55 | padding removal drops exactly the `=` the encoder appended |
| Base64.AtobInvertsEncode | packages/app/client/src/utils/restartConversationQueue.ts:55 | `atob` of the padded encoding of b is the binary string of b |
| ReplayQueue.ConversationQueue.constructor | packages/app/client/src/utils/replayConversationQueue.ts:71-88 | the conversation id is set before both builders run; the fields hold the user messages to replay and the grouped bot activities; nothing has been received |
| ReplayQueue.UserMessageIndicesSpec | packages/app/client/src/utils/replayConversationQueue.ts:95-97 | the selected positions increase, hold user-role messages, and include every user-role message |
| ReplayQueue.ReplayedPrefixSpec | packages/app/client/src/utils/replayConversationQueue.ts:99-111 | element j of the mapped list is the replay copy of the activity at the j-th selected position |
| ReplayQueue.ReplayedAreRewrittenUserMessages | packages/app/client/src/utils/replayConversationQueue.ts:94-112 | `activitiesToBeReplayed` is the in-order subsequence of user-role messages, each rewritten to the new conversation id and carrying its recorded id as `originalActivityId` |
| ReplayQueue.GroupedIsMatching | packages/app/client/src/utils/replayConversationQueue.ts:116 | filing activities one by one under their key gives, for every key, the in-order list of exactly the activities with that key; a key is present exactly when that list is non-empty |
| ReplayQueue.MatchingMembers | packages/app/client/src/utils/replayConversationQueue.ts:116 | an activity is in the list for a key exactly when it occurs in the input with that key |
| ReplayQueue.BotQueueIsGrouping | packages/app/client/src/utils/replayConversationQueue.ts:114-117 | `originalActivityQueue` places every non-user activity exactly once, under its `replyToId` (or "undefined"), keeping recorded order, and has no other keys |
| ReplayQueue.UserActivitiesNotGrouped | packages/app/client/src/utils/replayConversationQueue.ts:115 | no user-role activity appears in any group |
| ReplayQueue.ReplayCopyFiledUnderOriginal | packages/app/client/src/utils/replayConversationQueue.ts:106-126 | a replay copy arriving back is filed under the recorded id it was copied from, unless that id is empty |
| ReplayQueue.ConversationQueue.OnIncomingEvent | packages/app/client/src/utils/replayConversationQueue.ts:123-133 | a falsy id changes nothing; otherwise the activity is appended under its id, an empty list being created first, and no other id changes; the map stays the filing of all activities received |
| ReplayQueue.ConversationQueue.ReceivedByOriginalId | packages/app/client/src/utils/replayConversationQueue.ts:127-130 | the list under an id holds exactly the received activities that carry that id, in arrival order |

## Left out

- `processActivity`, `processActivities`, `handleActivityEmittedEvents`,
  `onEventCompleted`, `updateStore` and the `activityEmitter` getter of the
  replay queue are left out. They are asynchronous pacing through promises,
  event emitters, a 1000 ms timer and a Redux store dispatch, not sequential
  logic.
- RestartQueue.ConversationQueue.constructor starts `activitiesToBeProcessed`
  as the empty list. In the source it is undefined, so the first `push` or
  `.length` would throw a TypeError.
- RestartQueue.ConversationQueue.GetNextActivityInQueue requires the queue
  invariant, so it never meets a ready id without a replay activity. The
  source would throw a TypeError there, but no sequence of its own calls
  reaches that state.
- `createObjectURL` is an arbitrary function from files to strings. The model
  does not capture that each call yields a fresh, unique URL, nor the
  lifetime of that URL.
- `File` is modelled as a record of bytes, name and normalised `type`. Blob
  parts, the `lastModified` time and the replacement of lone surrogates in
  the name are left out.
- Activity properties are strings, optional strings or string maps. The
  TypeError that reading `role` of a missing `from` would raise is not
  modelled. A `channelData` that is not an object raises nothing in the
  source (a spread or a property read of a primitive does not throw); the
  model does not represent such a value. JavaScript truthiness is therefore only "absent or
  the empty string" for `originalActivityId` and "absent or zero" for counts.
- ReplayQueue.ConversationQueue.OnIncomingEvent treats `replayedActivityQueue`
  as a Dafny map with no inherited keys. In the source it is a plain object,
  so for an `originalActivityId` such as `"constructor"` the emptiness test
  finds the inherited prototype member, and the `.push` then throws a
  TypeError; that case is not modelled. The `groupBy` result is unaffected
  (lodash tests its own keys only). The order of object keys is not
  modelled.
- Strings are sequences of Unicode characters, not UTF-16 code units. `atob`
  refuses every character outside its alphabet either way, and the decoded
  string only holds codes below 256.
- The traversal loop of `traverseRestartFlowMap` runs on the map values, and
  `restartFlow` is assigned its result once. The source mutates each inner
  `Map` in place, but every snapshot is a fresh `Map` that nothing else
  refers to.
- The rewrite of `activity.attachments` in `getNextActivityInQueue` is a map
  update of `replayActivities`. The source mutates the stored object.
