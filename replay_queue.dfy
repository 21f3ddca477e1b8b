/**
  The older conversation queue (`ConversationQueue` of
  replayConversationQueue.ts). From the recorded activities it builds, once,
  the user messages to re-post and the bot activities grouped by the activity
  they reply to; while the replay runs, every activity that arrives with an
  `originalActivityId` in its channel data is filed under that id.

  Both builders are filters and folds over the recording; they are functions
  here and the constructor stores their results. `onIncomingEvent` updates the
  map of received activities in place and is a method. The map the source
  keeps under `replyToId` and the map of received activities are both a
  grouping of a sequence of activities by a key, and are both defined through
  `Grouped` below.
*/
module ReplayQueue {
  import opened Wrappers
  import opened Activities

  // ---------------------------------------------------------------------------
  // buildActivitiesToBeReplayed: the user messages, rewritten
  // ---------------------------------------------------------------------------

  /** The filter of `buildActivitiesToBeReplayed`: role `user` and type `message`. */
  predicate IsUserMessage(a: Activity) {
    a.fromRole == UserRole && a.activityType == MessageType
  }

  /** The filter-then-map over the first n recorded activities. */
  function ReplayedPrefix(acts: seq<Activity>, n: nat, conversationId: string): seq<Activity>
    requires n <= |acts|
  {
    if n == 0 then []
    else ReplayedPrefix(acts, n - 1, conversationId)
         + (if IsUserMessage(acts[n - 1]) then [ReplayCopy(acts[n - 1], conversationId)] else [])
  }

  /** `activitiesToBeReplayed` as built from the recording. */
  function ActivitiesToBeReplayed(acts: seq<Activity>, conversationId: string): seq<Activity> {
    ReplayedPrefix(acts, |acts|, conversationId)
  }

  /** The positions, in increasing order, of the user messages among the first n activities. */
  function UserMessageIndices(acts: seq<Activity>, n: nat): seq<int>
    requires n <= |acts|
  {
    if n == 0 then []
    else UserMessageIndices(acts, n - 1) + (if IsUserMessage(acts[n - 1]) then [n - 1] else [])
  }

  /** The positions lie below n, increase, hold user messages, and include every user message. */
  lemma {:induction false} UserMessageIndicesSpec(acts: seq<Activity>, n: nat)
    requires n <= |acts|
    ensures var idx := UserMessageIndices(acts, n);
            && (forall j :: 0 <= j < |idx| ==> 0 <= idx[j] < n && IsUserMessage(acts[idx[j]]))
            && (forall j, j' :: 0 <= j < j' < |idx| ==> idx[j] < idx[j'])
            && (forall i :: 0 <= i < n && IsUserMessage(acts[i]) ==> i in idx)
  {
    if n > 0 {
      UserMessageIndicesSpec(acts, n - 1);
      var idx0 := UserMessageIndices(acts, n - 1);
      var idx := UserMessageIndices(acts, n);
      if IsUserMessage(acts[n - 1]) {
        assert idx == idx0 + [n - 1];
        forall i | 0 <= i < n && IsUserMessage(acts[i]) ensures i in idx {
          if i < n - 1 {
            assert i in idx0;
          } else {
            assert idx[|idx0|] == i;
          }
        }
      } else {
        assert idx == idx0;
      }
    }
  }

  /** Element j of the replayed prefix is the replay copy of the activity at position j of the indices. */
  lemma {:induction false} ReplayedPrefixSpec(acts: seq<Activity>, n: nat, conversationId: string)
    requires n <= |acts|
    ensures var r := ReplayedPrefix(acts, n, conversationId);
            var idx := UserMessageIndices(acts, n);
            && |r| == |idx|
            && forall j :: 0 <= j < |idx| ==> 0 <= idx[j] < |acts| && r[j] == ReplayCopy(acts[idx[j]], conversationId)
  {
    if n > 0 {
      ReplayedPrefixSpec(acts, n - 1, conversationId);
      var r0 := ReplayedPrefix(acts, n - 1, conversationId);
      var idx0 := UserMessageIndices(acts, n - 1);
      if IsUserMessage(acts[n - 1]) {
        assert ReplayedPrefix(acts, n, conversationId) == r0 + [ReplayCopy(acts[n - 1], conversationId)];
        assert UserMessageIndices(acts, n) == idx0 + [n - 1];
      }
    }
  }

  /**
    `activitiesToBeReplayed` is the in-order subsequence of the user messages of
    the recording, each rewritten into the new conversation: element j is the
    replay copy of the recorded activity at position `idx[j]`, the positions
    increase, and every user message of the recording is among them. The copy
    carries the conversation id and, as `originalActivityId`, the recorded id.
  */
  lemma ReplayedAreRewrittenUserMessages(acts: seq<Activity>, conversationId: string)
    ensures var r := ActivitiesToBeReplayed(acts, conversationId);
            var idx := UserMessageIndices(acts, |acts|);
            && |r| == |idx|
            && (forall j :: 0 <= j < |idx| ==>
                  0 <= idx[j] < |acts| && IsUserMessage(acts[idx[j]])
                  && r[j] == ReplayCopy(acts[idx[j]], conversationId)
                  && r[j].conversation[ConversationIdKey] == conversationId
                  && r[j].channelData.value[OriginalActivityIdKey] == acts[idx[j]].id)
            && (forall j, j' :: 0 <= j < j' < |idx| ==> idx[j] < idx[j'])
            && (forall i :: 0 <= i < |acts| && IsUserMessage(acts[i]) ==> i in idx)
  {
    UserMessageIndicesSpec(acts, |acts|);
    ReplayedPrefixSpec(acts, |acts|, conversationId);
  }

  // ---------------------------------------------------------------------------
  // Grouping a sequence of activities by a key
  // ---------------------------------------------------------------------------

  /** The key an activity is filed under, or `None` when it is not filed at all. */
  type KeyOf = Activity -> Option<string>

  /** Filing one activity: it is appended to the list under its key, which is
      created empty first when missing. */
  function FiledUnder(groups: map<string, seq<Activity>>, a: Activity, key: KeyOf): map<string, seq<Activity>> {
    match key(a)
    case None => groups
    case Some(k) => groups[k := (if k in groups then groups[k] else []) + [a]]
  }

  /** The first n activities filed one after the other into an empty map. */
  function Grouped(xs: seq<Activity>, n: nat, key: KeyOf): map<string, seq<Activity>>
    requires n <= |xs|
  {
    if n == 0 then map[] else FiledUnder(Grouped(xs, n - 1, key), xs[n - 1], key)
  }

  /** The reference definition: the in-order subsequence of the first n activities whose key is k. */
  function Matching(xs: seq<Activity>, n: nat, key: KeyOf, k: string): seq<Activity>
    requires n <= |xs|
  {
    if n == 0 then []
    else Matching(xs, n - 1, key, k) + (if key(xs[n - 1]) == Some(k) then [xs[n - 1]] else [])
  }

  /** The filing fold groups by key: k is present exactly when some activity has
      key k, and its list is then every such activity, in order, each once. */
  lemma {:induction false} GroupedIsMatching(xs: seq<Activity>, n: nat, key: KeyOf)
    requires n <= |xs|
    ensures forall k :: k in Grouped(xs, n, key) <==> Matching(xs, n, key, k) != []
    ensures forall k :: k in Grouped(xs, n, key) ==> Grouped(xs, n, key)[k] == Matching(xs, n, key, k)
  {
    if n > 0 {
      GroupedIsMatching(xs, n - 1, key);
    }
  }

  /** An activity is in the reference list for k exactly when it occurs with key k. */
  lemma {:induction false} MatchingMembers(xs: seq<Activity>, n: nat, key: KeyOf, k: string)
    requires n <= |xs|
    ensures forall a :: a in Matching(xs, n, key, k) <==> exists i :: 0 <= i < n && xs[i] == a && key(a) == Some(k)
  {
    if n > 0 {
      MatchingMembers(xs, n - 1, key, k);
      var last := if key(xs[n - 1]) == Some(k) then [xs[n - 1]] else [];
      forall a | a in Matching(xs, n, key, k)
        ensures exists i :: 0 <= i < n && xs[i] == a && key(a) == Some(k)
      {
        if a !in Matching(xs, n - 1, key, k) {
          assert a in last;
        }
      }
    }
  }

  /** Only the first n activities matter. */
  lemma {:induction false} GroupedPrefix(xs: seq<Activity>, ys: seq<Activity>, n: nat, key: KeyOf)
    requires n <= |xs| && n <= |ys|
    requires forall i :: 0 <= i < n ==> xs[i] == ys[i]
    ensures Grouped(xs, n, key) == Grouped(ys, n, key)
  {
    if n > 0 {
      GroupedPrefix(xs, ys, n - 1, key);
    }
  }

  // ---------------------------------------------------------------------------
  // buildBotActivityQueue: `groupBy(botActivities, 'replyToId')`
  // ---------------------------------------------------------------------------

  /** The property name lodash's `groupBy` files an activity under: its
      `replyToId`, or the string "undefined" when it has none. */
  function GroupKey(a: Activity): string {
    match a.replyToId
    case Some(id) => id
    case None => "undefined"
  }

  /** User-role activities are filtered out before grouping; the rest are filed
      under their `replyToId`. */
  function BotKey(a: Activity): Option<string> {
    if IsUser(a) then None else Some(GroupKey(a))
  }

  /** `originalActivityQueue` as built from the recording. */
  function BotActivityQueue(acts: seq<Activity>): map<string, seq<Activity>> {
    Grouped(acts, |acts|, BotKey)
  }

  /** The non-user activities of the recording that reply to k, in recorded order. */
  function RepliesTo(acts: seq<Activity>, k: string): seq<Activity> {
    Matching(acts, |acts|, BotKey, k)
  }

  /**
    `originalActivityQueue` places every non-user activity exactly once, in the
    group for its `replyToId`, in recorded order: a key is present exactly when
    some non-user activity replies to it, its group is the list of those
    activities, and an activity belongs to the group for k exactly when it is
    a recorded non-user activity replying to k.
  */
  lemma BotQueueIsGrouping(acts: seq<Activity>)
    ensures forall k :: k in BotActivityQueue(acts) <==> RepliesTo(acts, k) != []
    ensures forall k :: k in BotActivityQueue(acts) ==> BotActivityQueue(acts)[k] == RepliesTo(acts, k)
    ensures forall k, a :: a in RepliesTo(acts, k) <==>
              exists i :: 0 <= i < |acts| && acts[i] == a && !IsUser(a) && GroupKey(a) == k
  {
    GroupedIsMatching(acts, |acts|, BotKey);
    forall k ensures forall a :: a in RepliesTo(acts, k) <==>
                       exists i :: 0 <= i < |acts| && acts[i] == a && !IsUser(a) && GroupKey(a) == k
    {
      MatchingMembers(acts, |acts|, BotKey, k);
    }
  }

  /** A user activity is never grouped. */
  lemma UserActivitiesNotGrouped(acts: seq<Activity>, k: string, a: Activity)
    requires IsUser(a)
    ensures a !in RepliesTo(acts, k)
  {
    MatchingMembers(acts, |acts|, BotKey, k);
  }

  // ---------------------------------------------------------------------------
  // onIncomingEvent: filing the activities of the replay as they arrive
  // ---------------------------------------------------------------------------

  /** The id `onIncomingEvent` files an activity under: `channelData.originalActivityId`
      when channel data is present and that property is truthy (present and not
      the empty string); otherwise the activity is not filed. */
  function OriginalActivityIdOf(a: Activity): Option<string> {
    match a.channelData
    case None => None
    case Some(cd) =>
      if OriginalActivityIdKey in cd && cd[OriginalActivityIdKey] != "" then Some(cd[OriginalActivityIdKey])
      else None
  }

  /** A replay copy is filed under the id of the activity it was copied from,
      unless that id is empty. */
  lemma ReplayCopyFiledUnderOriginal(a: Activity, conversationId: string)
    ensures a.id != "" ==> OriginalActivityIdOf(ReplayCopy(a, conversationId)) == Some(a.id)
    ensures a.id == "" ==> OriginalActivityIdOf(ReplayCopy(a, conversationId)) == None
  {
  }

  class ConversationQueue {
    var conversationId: string
    var activitiesToBeReplayed: seq<Activity>
    var originalActivityQueue: map<string, seq<Activity>>
    var replayedActivityQueue: map<string, seq<Activity>>
    /** The activities delivered to `onIncomingEvent` so far, in order. */
    ghost var received: seq<Activity>

    /** The map of received activities is the filing of everything delivered so far. */
    ghost predicate Valid()
      reads this
    {
      replayedActivityQueue == Grouped(received, |received|, OriginalActivityIdOf)
    }

    /** `new ConversationQueue(conversationId, originalActivities)`: the
        conversation id is set before both builders run. */
    constructor (cid: string, originalActivities: seq<Activity>)
      ensures Valid() && received == []
      ensures conversationId == cid
      ensures activitiesToBeReplayed == ActivitiesToBeReplayed(originalActivities, cid)
      ensures originalActivityQueue == BotActivityQueue(originalActivities)
      ensures replayedActivityQueue == map[]
    {
      conversationId := cid;
      originalActivityQueue := map[];
      replayedActivityQueue := map[];
      activitiesToBeReplayed := [];
      received := [];
      new;
      activitiesToBeReplayed := ActivitiesToBeReplayed(originalActivities, conversationId);
      originalActivityQueue := BotActivityQueue(originalActivities);
    }

    /**
      `onIncomingEvent(currentActivity)`: without channel data or with a falsy
      `originalActivityId` nothing changes; otherwise the activity is appended
      to the list under that id, an empty list being created first when there
      is none, and no other id changes.
    */
    method OnIncomingEvent(currentActivity: Activity)
      requires Valid()
      modifies this`replayedActivityQueue, this`received
      ensures Valid() && received == old(received) + [currentActivity]
      ensures OriginalActivityIdOf(currentActivity).None? ==> replayedActivityQueue == old(replayedActivityQueue)
      ensures OriginalActivityIdOf(currentActivity).Some? ==>
                var id := OriginalActivityIdOf(currentActivity).value;
                && replayedActivityQueue.Keys == old(replayedActivityQueue).Keys + {id}
                && replayedActivityQueue[id]
                   == (if id in old(replayedActivityQueue) then old(replayedActivityQueue)[id] else []) + [currentActivity]
                && forall k :: k in old(replayedActivityQueue) && k != id ==>
                     replayedActivityQueue[k] == old(replayedActivityQueue)[k]
    {
      ghost var queue0 := replayedActivityQueue;
      if currentActivity.channelData.Some? {
        var originalActivityId := if OriginalActivityIdKey in currentActivity.channelData.value
                                  then currentActivity.channelData.value[OriginalActivityIdKey] else "";
        if originalActivityId != "" {
          if originalActivityId !in replayedActivityQueue {
            replayedActivityQueue := replayedActivityQueue[originalActivityId := []];
          }
          replayedActivityQueue := replayedActivityQueue[originalActivityId :=
                                     replayedActivityQueue[originalActivityId] + [currentActivity]];
        }
      }
      assert replayedActivityQueue == FiledUnder(queue0, currentActivity, OriginalActivityIdOf);
      ghost var before := received;
      received := received + [currentActivity];
      GroupedPrefix(before, received, |before|, OriginalActivityIdOf);
      assert Grouped(received, |received|, OriginalActivityIdOf)
          == FiledUnder(Grouped(before, |before|, OriginalActivityIdOf), currentActivity, OriginalActivityIdOf);
    }

    /** Once the listed activities are delivered, the list under an id holds
        exactly the delivered activities carrying that id, in arrival order. */
    lemma ReceivedByOriginalId(id: string)
      requires Valid()
      ensures id in replayedActivityQueue <==> Matching(received, |received|, OriginalActivityIdOf, id) != []
      ensures id in replayedActivityQueue ==>
                replayedActivityQueue[id] == Matching(received, |received|, OriginalActivityIdOf, id)
    {
      GroupedIsMatching(received, |received|, OriginalActivityIdOf);
    }
  }
}
