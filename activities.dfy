/**
  The Bot Framework activity, as far as the two conversation queues look at it,
  and the replay copy that both queues make of a recorded user activity.
*/
module Activities {
  import opened Wrappers

  /** One attachment of an activity: the data URL it was recorded with (absent,
      or not a string, for a card that carries `content` instead), its file
      name, and its remaining properties (content type and so on). */
  datatype Attachment = Attachment(contentUrl: Option<string>, name: string, otherFields: map<string, string>)

  /**
    A recorded or live activity. `fromRole` is `from.role`, `activityType` is
    `type`. `conversation` holds the properties of the conversation account
    (an absent account is the empty map, which is what a spread of it yields).
    `channelData` is absent or a property map. `otherFields` stands for every
    remaining property (text, timestamp, ...), which the queues never look at.
  */
  datatype Activity = Activity(
    id: string,
    fromRole: string,
    activityType: string,
    replyToId: Option<string>,
    conversation: map<string, string>,
    channelData: Option<map<string, string>>,
    attachments: Option<seq<Attachment>>,
    otherFields: map<string, string>)

  const UserRole: string := "user"
  const MessageType: string := "message"
  const OriginalActivityIdKey: string := "originalActivityId"
  const ConversationIdKey: string := "id"

  predicate IsUser(a: Activity) {
    a.fromRole == UserRole
  }

  /** The channel data as a spread sees it: an absent object spreads to nothing. */
  function ChannelDataFields(a: Activity): map<string, string> {
    match a.channelData
    case Some(cd) => cd
    case None => map[]
  }

  /**
    The copy of a recorded activity that is re-posted into the new conversation:
    `{...a, channelData: {...a.channelData, originalActivityId: a.id},
    conversation: {...a.conversation, id: conversationId}}`.
    Exactly two properties change; everything else, `id` and `attachments`
    included, is carried over.
  */
  function ReplayCopy(a: Activity, conversationId: string): (r: Activity)
    ensures r.channelData.Some? && OriginalActivityIdKey in r.channelData.value
    ensures r.channelData.value[OriginalActivityIdKey] == a.id
    ensures ConversationIdKey in r.conversation && r.conversation[ConversationIdKey] == conversationId
    ensures forall k :: k in ChannelDataFields(a) && k != OriginalActivityIdKey ==>
              k in r.channelData.value && r.channelData.value[k] == ChannelDataFields(a)[k]
    ensures forall k :: k in r.channelData.value ==> k == OriginalActivityIdKey || k in ChannelDataFields(a)
    ensures forall k :: k in a.conversation && k != ConversationIdKey ==>
              k in r.conversation && r.conversation[k] == a.conversation[k]
    ensures forall k :: k in r.conversation ==> k == ConversationIdKey || k in a.conversation
    ensures r.(channelData := a.channelData, conversation := a.conversation) == a
  {
    a.(channelData := Some(ChannelDataFields(a)[OriginalActivityIdKey := a.id]),
       conversation := a.conversation[ConversationIdKey := conversationId])
  }
}
