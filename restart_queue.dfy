/**
  The restart queue (`ConversationQueue` of restartConversationQueue.ts).

  From the recorded activities it keeps, per user activity id, a replay copy
  (`replayActivities`) and a snapshot of how often each non-user activity id
  had occurred before it (`restartFlow`). Each live activity decrements those
  snapshots, and every user id whose snapshot is empty is appended to the
  ready list `activitiesToBeProcessed`, which `getNextActivityInQueue` pops.

  A JavaScript `Map` remembers insertion order; `restartFlow` is therefore
  modelled as the map plus `restartFlowOrder`, its keys in insertion order.
  Every snapshot is a fresh `Map` that nothing else refers to, so the inner
  maps are values.

  The code is modelled as written, including three behaviours that read as
  defects: the decremented count is stored under the user activity's own id
  rather than under the incoming id; `activitiesToBeProcessed` is never
  initialised (here it starts empty); and `getNextActivityInQueue` returns no
  value even when it pops an id.
*/
module RestartQueue {
  import opened Wrappers
  import opened Activities
  import DataUrl

  /** Occurrence counts keyed by activity id. */
  type CountMap = map<string, int>

  // ---------------------------------------------------------------------------
  // buildActivityQueue, as functions of the prefix of activities already seen

  /** The local `activityReplyCount` after the given activities: each non-user
      activity increments the count of its own id. */
  function ReplyCounts(acts: seq<Activity>): (m: CountMap)
    ensures forall id :: id in m ==> m[id] >= 1
    decreases |acts|
  {
    if acts == [] then map[]
    else
      var m := ReplyCounts(acts[..|acts| - 1]);
      var a := acts[|acts| - 1];
      if IsUser(a) then m
      else m[a.id := (if a.id in m then m[a.id] else 0) + 1]
  }

  /** The ids of the non-user activities, in order. */
  function NonUserIds(acts: seq<Activity>): seq<string>
    decreases |acts|
  {
    if acts == [] then []
    else
      var a := acts[|acts| - 1];
      NonUserIds(acts[..|acts| - 1]) + (if IsUser(a) then [] else [a.id])
  }

  /** `restartFlow` after the given activities: every user activity sets its own
      id to a snapshot of the counts so far. */
  function BuiltFlow(acts: seq<Activity>): map<string, CountMap>
    decreases |acts|
  {
    if acts == [] then map[]
    else
      var pre := acts[..|acts| - 1];
      var a := acts[|acts| - 1];
      if IsUser(a) then BuiltFlow(pre)[a.id := ReplyCounts(pre)] else BuiltFlow(pre)
  }

  /** The keys of `restartFlow` in insertion order: setting an existing key keeps its place. */
  function BuiltOrder(acts: seq<Activity>): seq<string>
    decreases |acts|
  {
    if acts == [] then []
    else
      var order := BuiltOrder(acts[..|acts| - 1]);
      var a := acts[|acts| - 1];
      if IsUser(a) && a.id !in order then order + [a.id] else order
  }

  /** `replayActivities` after the given activities. */
  function BuiltReplay(acts: seq<Activity>, conversationId: string): map<string, Activity>
    decreases |acts|
  {
    if acts == [] then map[]
    else
      var pre := acts[..|acts| - 1];
      var a := acts[|acts| - 1];
      if IsUser(a) then BuiltReplay(pre, conversationId)[a.id := ReplayCopy(a, conversationId)]
      else BuiltReplay(pre, conversationId)
  }

  /** The ids of the user activities. */
  ghost function UserIds(acts: seq<Activity>): set<string> {
    set i | 0 <= i < |acts| && IsUser(acts[i]) :: acts[i].id
  }

  ghost predicate Distinct(s: seq<string>) {
    forall i, j :: 0 <= i < j < |s| ==> s[i] != s[j]
  }

  /** i is the last user activity with this id: later ones would overwrite it. */
  ghost predicate IsLastUserWithId(acts: seq<Activity>, id: string, i: int) {
    0 <= i < |acts| && IsUser(acts[i]) && acts[i].id == id &&
    forall j :: i < j < |acts| ==> !(IsUser(acts[j]) && acts[j].id == id)
  }

  /** The count map holds, for each id, how often a non-user activity with that
      id occurs: its own id, not the id it replies to. */
  lemma {:induction false} ReplyCountsCountOccurrences(acts: seq<Activity>)
    ensures forall id :: id in ReplyCounts(acts) <==> id in multiset(NonUserIds(acts))
    ensures forall id :: id in ReplyCounts(acts) ==> ReplyCounts(acts)[id] == multiset(NonUserIds(acts))[id]
    decreases |acts|
  {
    if acts != [] {
      ReplyCountsCountOccurrences(acts[..|acts| - 1]);
    }
  }

  /** The keys of the built maps and their insertion order agree. */
  lemma {:induction false} BuiltKeys(acts: seq<Activity>, conversationId: string)
    ensures BuiltFlow(acts).Keys == BuiltReplay(acts, conversationId).Keys == UserIds(acts)
    ensures Distinct(BuiltOrder(acts))
    ensures forall u :: u in BuiltOrder(acts) <==> u in BuiltFlow(acts)
    ensures forall u, k :: u in BuiltFlow(acts) && k in BuiltFlow(acts)[u] ==> BuiltFlow(acts)[u][k] >= 1
    decreases |acts|
  {
    if acts != [] {
      var pre := acts[..|acts| - 1];
      BuiltKeys(pre, conversationId);
      var a := acts[|acts| - 1];
      assert UserIds(acts) == UserIds(pre) + (if IsUser(a) then {a.id} else {}) by {
        forall id | id in UserIds(acts) ensures id in UserIds(pre) + (if IsUser(a) then {a.id} else {}) {
          var i :| 0 <= i < |acts| && IsUser(acts[i]) && acts[i].id == id;
          if i < |pre| { assert pre[i] == acts[i]; }
        }
        forall id | id in UserIds(pre) ensures id in UserIds(acts) {
          var i :| 0 <= i < |pre| && IsUser(pre[i]) && pre[i].id == id;
          assert acts[i] == pre[i];
        }
      }
    }
  }

  /** The last user activity with a given id determines both entries under that id. */
  lemma {:induction false} BuiltValues(acts: seq<Activity>, conversationId: string, id: string, i: int)
    requires IsLastUserWithId(acts, id, i)
    ensures id in BuiltReplay(acts, conversationId) && id in BuiltFlow(acts)
    ensures BuiltReplay(acts, conversationId)[id] == ReplayCopy(acts[i], conversationId)
    ensures BuiltFlow(acts)[id] == ReplyCounts(acts[..i])
    decreases |acts|
  {
    var pre := acts[..|acts| - 1];
    if i < |acts| - 1 {
      assert IsLastUserWithId(pre, id, i) by {
        forall j | i < j < |pre| ensures !(IsUser(pre[j]) && pre[j].id == id) {
          assert pre[j] == acts[j];
        }
      }
      BuiltValues(pre, conversationId, id, i);
      assert acts[..i] == pre[..i];
    }
  }

  /** A recorded user id has a last user activity carrying it. */
  lemma {:induction false} LastUserExists(acts: seq<Activity>, id: string)
    requires exists i :: 0 <= i < |acts| && IsUser(acts[i]) && acts[i].id == id
    ensures exists i :: IsLastUserWithId(acts, id, i)
    decreases |acts|
  {
    var pre := acts[..|acts| - 1];
    var a := acts[|acts| - 1];
    if IsUser(a) && a.id == id {
      assert IsLastUserWithId(acts, id, |acts| - 1);
    } else {
      var i :| 0 <= i < |acts| && IsUser(acts[i]) && acts[i].id == id;
      assert i < |pre| && pre[i] == acts[i];
      LastUserExists(pre, id);
      var k :| IsLastUserWithId(pre, id, k);
      assert IsLastUserWithId(acts, id, k);
    }
  }

  /**
    After the build, an id is a key of `replayActivities` (and of `restartFlow`)
    exactly when some user activity has it. Its replay copy is that of the LAST
    user activity with the id, and its snapshot counts the non-user activities
    before that one only: later activities never change it.
  */
  lemma BuiltEntries(acts: seq<Activity>, conversationId: string, id: string)
    ensures id in BuiltReplay(acts, conversationId) <==>
              exists i :: 0 <= i < |acts| && IsUser(acts[i]) && acts[i].id == id
    ensures id in BuiltFlow(acts) <==> id in BuiltReplay(acts, conversationId)
    ensures id in BuiltReplay(acts, conversationId) ==> exists i :: IsLastUserWithId(acts, id, i)
    ensures forall i :: IsLastUserWithId(acts, id, i) ==>
              && BuiltReplay(acts, conversationId)[id] == ReplayCopy(acts[i], conversationId)
              && BuiltFlow(acts)[id] == ReplyCounts(acts[..i])
  {
    BuiltKeys(acts, conversationId);
    if id in BuiltReplay(acts, conversationId) {
      LastUserExists(acts, id);
    }
    forall i | IsLastUserWithId(acts, id, i)
      ensures && BuiltReplay(acts, conversationId)[id] == ReplayCopy(acts[i], conversationId)
              && BuiltFlow(acts)[id] == ReplyCounts(acts[..i])
    {
      BuiltValues(acts, conversationId, id, i);
    }
  }

  // ---------------------------------------------------------------------------
  // traverseRestartFlowMap, as functions of the old state

  /**
    One iteration of `traverseRestartFlowMap` on the snapshot `value` of user
    activity `activityId`: when the incoming id has a non-zero count, that count
    less one is deleted (when zero) or set under `activityId`, the user's own id.
  */
  function Decremented(value: CountMap, activityId: string, incomingActivityId: string): CountMap {
    if incomingActivityId in value && value[incomingActivityId] != 0 then
      var ctOfActivity := value[incomingActivityId] - 1;
      if ctOfActivity == 0 then value - {activityId} else value[activityId := ctOfActivity]
    else value
  }

  /**
    What the decrement does to a snapshot: a map without a non-zero count for
    the incoming id is left as it is; otherwise only the key `activityId` can
    change (so the incoming id keeps its count unless the two ids coincide), it
    disappears exactly when the incoming count was one and otherwise holds that
    count less one. Positive counts stay positive.
  */
  lemma DecrementTouchesOwnKeyOnly(value: CountMap, activityId: string, incomingActivityId: string)
    ensures var r := Decremented(value, activityId, incomingActivityId);
            && (!(incomingActivityId in value && value[incomingActivityId] != 0) ==> r == value)
            && (forall k :: k != activityId ==> (k in r <==> k in value) && (k in r ==> r[k] == value[k]))
            && (incomingActivityId in value && value[incomingActivityId] != 0 ==>
                  (activityId in r <==> value[incomingActivityId] != 1) &&
                  (activityId in r ==> r[activityId] == value[incomingActivityId] - 1))
            && ((forall k :: k in value ==> value[k] >= 1) ==> (forall k :: k in r ==> r[k] >= 1))
  {
  }

  /** `restartFlow` after one traversal: the same keys, each snapshot decremented. */
  function TraversedFlow(flow: map<string, CountMap>, incomingActivityId: string): (r: map<string, CountMap>)
    ensures r.Keys == flow.Keys
  {
    map u | u in flow :: Decremented(flow[u], u, incomingActivityId)
  }

  /** The user ids, in the given order, whose snapshot is empty. */
  function ReadyIds(order: seq<string>, flow: map<string, CountMap>): seq<string>
    decreases |order|
  {
    if order == [] then []
    else
      var u := order[|order| - 1];
      ReadyIds(order[..|order| - 1], flow) + (if u in flow && |flow[u]| == 0 then [u] else [])
  }

  /** An id is appended exactly when it is a key in the order whose snapshot is empty. */
  lemma {:induction false} ReadyIdsMembers(order: seq<string>, flow: map<string, CountMap>)
    ensures forall u :: u in ReadyIds(order, flow) <==> u in order && u in flow && |flow[u]| == 0
    decreases |order|
  {
    if order != [] {
      var pre := order[..|order| - 1];
      ReadyIdsMembers(pre, flow);
      assert order == pre + [order[|order| - 1]];
    }
  }

  /** A sequence of traversals, one per incoming id. */
  function TraversedAll(flow: map<string, CountMap>, incoming: seq<string>): (r: map<string, CountMap>)
    decreases |incoming|
  {
    if incoming == [] then flow
    else TraversedAll(TraversedFlow(flow, incoming[0]), incoming[1..])
  }

  /**
    A user activity that waits on at least one earlier activity never becomes
    ready, whatever live activities arrive, as long as none of them carries the
    user activity's own id: the decrement never touches the incoming id's count.
  */
  lemma {:induction false} WaitingUserNeverReady(flow: map<string, CountMap>, u: string, incoming: seq<string>)
    requires u in flow && |flow[u]| > 0
    requires u !in incoming
    ensures u in TraversedAll(flow, incoming) && |TraversedAll(flow, incoming)[u]| > 0
    decreases |incoming|
  {
    if incoming != [] {
      var x := incoming[0];
      var next := TraversedFlow(flow, x);
      assert x != u;
      DecrementTouchesOwnKeyOnly(flow[u], u, x);
      if x in flow[u] && flow[u][x] != 0 {
        assert x in next[u];
      } else {
        assert next[u] == flow[u];
      }
      assert u !in incoming[1..] by {
        forall j | 0 <= j < |incoming| - 1 ensures incoming[1..][j] != u {
          assert incoming[1..][j] == incoming[j + 1];
        }
      }
      WaitingUserNeverReady(next, u, incoming[1..]);
    }
  }

  /** A user id whose snapshot is empty is appended again by every traversal. */
  lemma EmptySnapshotReadyAgain(order: seq<string>, flow: map<string, CountMap>, u: string, x: string)
    requires u in order && u in flow && |flow[u]| == 0
    ensures u in ReadyIds(order, TraversedFlow(flow, x))
  {
    ReadyIdsMembers(order, TraversedFlow(flow, x));
  }

  /**
    `restartFlow` once the loop of `traverseRestartFlowMap` has visited the
    first n keys of `ks`, in that order: each visited snapshot is replaced by
    its decrement.
  */
  function Visited(flow: map<string, CountMap>, ks: seq<string>, n: nat, incomingActivityId: string): map<string, CountMap>
    requires n <= |ks|
  {
    if n == 0 then flow
    else
      var f := Visited(flow, ks, n - 1, incomingActivityId);
      var u := ks[n - 1];
      if u in f then f[u := Decremented(f[u], u, incomingActivityId)] else f
  }

  /** One more visited key extends the ready list by that key exactly when its snapshot is empty. */
  lemma ReadyIdsStep(ready0: seq<string>, ks: seq<string>, i: nat, flow: map<string, CountMap>, value: CountMap)
    requires i < |ks| && ks[i] in flow && flow[ks[i]] == value
    ensures ready0 + ReadyIds(ks[..i + 1], flow)
            == (ready0 + ReadyIds(ks[..i], flow)) + (if |value| == 0 then [ks[i]] else [])
  {
    assert ks[..i + 1][..i] == ks[..i];
  }

  /** Visiting distinct keys decrements exactly the visited snapshots, once each. */
  lemma {:induction false} VisitedSnapshots(flow: map<string, CountMap>, ks: seq<string>, n: nat, x: string)
    requires n <= |ks| && Distinct(ks)
    ensures Visited(flow, ks, n, x).Keys == flow.Keys
    ensures forall u :: u in flow ==>
              Visited(flow, ks, n, x)[u] == if u in ks[..n] then Decremented(flow[u], u, x) else flow[u]
  {
    if n > 0 {
      VisitedSnapshots(flow, ks, n - 1, x);
      assert ks[..n] == ks[..n - 1] + [ks[n - 1]];
      forall a | 0 <= a < n - 1 ensures ks[a] != ks[n - 1] {
      }
      assert ks[n - 1] !in ks[..n - 1];
    }
  }

  /** Visiting every key of `restartFlow` once computes the traversal. */
  lemma VisitedAllKeys(flow: map<string, CountMap>, ks: seq<string>, x: string)
    requires Distinct(ks) && forall u :: u in flow ==> u in ks
    ensures Visited(flow, ks, |ks|, x) == TraversedFlow(flow, x)
  {
    VisitedSnapshots(flow, ks, |ks|, x);
    assert ks[..|ks|] == ks;
  }

  /**
    One iteration of the loop, on the i-th key: its snapshot is still the
    original one, and its decrement is the traversal's.
  */
  lemma VisitStep(flow0: map<string, CountMap>, ks: seq<string>, i: nat, x: string)
    requires Distinct(ks) && i < |ks| && ks[i] in flow0
    ensures var f := Visited(flow0, ks, i, x);
            && ks[i] in f && f[ks[i]] == flow0[ks[i]]
            && ks[i] in TraversedFlow(flow0, x)
            && Decremented(flow0[ks[i]], ks[i], x) == TraversedFlow(flow0, x)[ks[i]]
            && Visited(flow0, ks, i + 1, x) == f[ks[i] := Decremented(f[ks[i]], ks[i], x)]
  {
    VisitedSnapshots(flow0, ks, i, x);
    assert ks[i] !in ks[..i] by {
      forall a | 0 <= a < i ensures ks[..i][a] != ks[i] {
      }
    }
  }

  /** Writing an unchanged snapshot back leaves the map as it is. */
  lemma VisitUnchanged(f: map<string, CountMap>, u: string, value: CountMap)
    requires u in f && value == f[u]
    ensures f[u := value] == f
  {
  }

  /**
    The loop of `traverseRestartFlowMap` over the keys of `restartFlow` in
    insertion order: each snapshot is decremented and written back when the
    incoming id has a non-zero count in it, and each key whose snapshot is then
    empty is appended to the ready list.
  */
  method VisitKeys(keys: seq<string>, flow0: map<string, CountMap>, ready0: seq<string>, incomingActivityId: string)
    returns (flow: map<string, CountMap>, ready: seq<string>)
    requires Distinct(keys) && forall u :: u in keys <==> u in flow0
    ensures flow == TraversedFlow(flow0, incomingActivityId)
    ensures ready == ready0 + ReadyIds(keys, flow)
  {
    flow, ready := flow0, ready0;
    ghost var target := TraversedFlow(flow0, incomingActivityId);
    for i := 0 to |keys|
      invariant flow == Visited(flow0, keys, i, incomingActivityId)
      invariant ready == ready0 + ReadyIds(keys[..i], target)
    {
      var activityId := keys[i];
      VisitStep(flow0, keys, i, incomingActivityId);
      ReadyIdsStep(ready0, keys, i, target, Decremented(flow0[activityId], activityId, incomingActivityId));
      var value := flow[activityId];
      if incomingActivityId in value && value[incomingActivityId] != 0 {
        var ctOfActivity := value[incomingActivityId] - 1;
        if ctOfActivity == 0 {
          value := value - {activityId};
        } else {
          value := value[activityId := ctOfActivity];
        }
        flow := flow[activityId := value];
      } else {
        VisitUnchanged(flow, activityId, value);
      }
      if |value| == 0 {
        ready := ready + [activityId];
      }
    }
    VisitedAllKeys(flow0, keys, incomingActivityId);
    assert keys[..|keys|] == keys;
  }

  /** Traversal keeps every count positive. */
  lemma TraversalKeepsCountsPositive(flow: map<string, CountMap>, incomingActivityId: string)
    requires forall u, k :: u in flow && k in flow[u] ==> flow[u][k] >= 1
    ensures var r := TraversedFlow(flow, incomingActivityId);
            forall u, k :: u in r && k in r[u] ==> r[u][k] >= 1
  {
    var r := TraversedFlow(flow, incomingActivityId);
    forall u | u in r ensures forall k :: k in r[u] ==> r[u][k] >= 1 {
      DecrementTouchesOwnKeyOnly(flow[u], u, incomingActivityId);
    }
  }

  // ---------------------------------------------------------------------------
  // getNextActivityInQueue

  /** How the (value-less) `getNextActivityInQueue` ends: it returns `undefined`
      or `dataURLtoFile` throws. */
  datatype Completion = ReturnedUndefined | Threw(error: DataUrl.DataUrlError)

  /** `dataURLtoFile(attachment.contentUrl, attachment.name)`: an attachment
      without a string `contentUrl` throws at `dataurl.split`, and only that
      one throws `NotAString`. */
  function DecodeAttachment(a: Attachment): (r: Result<DataUrl.File, DataUrl.DataUrlError>)
    ensures r == Err(DataUrl.NotAString) <==> a.contentUrl.None?
    ensures a.contentUrl.Some? ==> r == DataUrl.ParseDataUrl(a.contentUrl.value, a.name)
  {
    match a.contentUrl
    case None => Err(DataUrl.NotAString)
    case Some(dataurl) => DataUrl.ParseDataUrl(dataurl, a.name)
  }

  type Decoder = Attachment -> Result<DataUrl.File, DataUrl.DataUrlError>

  /** The callback of `attachments.map(...)`, with `decode` standing for
      `dataURLtoFile`: the attachment with its `contentUrl` replaced by the
      object URL of its decoded file, or the error the decoding throws. */
  function RehydratedOne(a: Attachment, decode: Decoder, createObjectUrl: DataUrl.File -> string)
    : Result<Attachment, DataUrl.DataUrlError>
  {
    match decode(a)
    case Err(e) => Err(e)
    case Ok(file) => Ok(a.(contentUrl := Some(createObjectUrl(file))))
  }

  /** `attachments.map(...)` over the first n attachments; the first callback
      that throws ends it. */
  function RehydratedAttachments(atts: seq<Attachment>, n: nat, decode: Decoder, createObjectUrl: DataUrl.File -> string)
    : Result<seq<Attachment>, DataUrl.DataUrlError>
    requires n <= |atts|
  {
    if n == 0 then Ok([])
    else
      match RehydratedAttachments(atts, n - 1, decode, createObjectUrl)
      case Err(e) => Err(e)
      case Ok(done) =>
        match RehydratedOne(atts[n - 1], decode, createObjectUrl)
        case Err(e) => Err(e)
        case Ok(a) => Ok(done + [a])
  }

  /** The loop's step: a successful callback extends the list, a failing one
      is the error of the whole map. */
  lemma RehydrationNext(atts: seq<Attachment>, i: nat, decode: Decoder, createObjectUrl: DataUrl.File -> string,
                        done: seq<Attachment>, next: Result<Attachment, DataUrl.DataUrlError>)
    requires i < |atts| && RehydratedAttachments(atts, i, decode, createObjectUrl) == Ok(done)
    requires RehydratedOne(atts[i], decode, createObjectUrl) == next
    ensures next.Ok? ==> RehydratedAttachments(atts, i + 1, decode, createObjectUrl) == Ok(done + [next.value])
    ensures next.Err? ==> RehydratedAttachments(atts, |atts|, decode, createObjectUrl) == Err(next.error)
  {
    if next.Err? {
      RehydrationErrorPersists(atts, i + 1, decode, createObjectUrl);
    }
  }

  /** An earlier failure stays. */
  lemma RehydrationFailureStays(atts: seq<Attachment>, i: nat, decode: Decoder, createObjectUrl: DataUrl.File -> string)
    requires i < |atts| && RehydratedAttachments(atts, i, decode, createObjectUrl).Err?
    ensures RehydratedAttachments(atts, i + 1, decode, createObjectUrl) == RehydratedAttachments(atts, i, decode, createObjectUrl)
  {
  }

  /**
    The mapped list exists exactly when every attachment decodes, and then it is
    the list with each `contentUrl` replaced; otherwise the error is that of the
    first attachment that does not decode.
  */
  lemma {:induction false} RehydrationMeaning(atts: seq<Attachment>, n: nat, decode: Decoder, createObjectUrl: DataUrl.File -> string)
    requires n <= |atts|
    ensures var r := RehydratedAttachments(atts, n, decode, createObjectUrl);
            && (r.Ok? <==> forall i :: 0 <= i < n ==> decode(atts[i]).Ok?)
            && (r.Ok? ==> |r.value| == n)
            && (r.Ok? ==> forall i :: 0 <= i < n ==>
                  r.value[i] == atts[i].(contentUrl := Some(createObjectUrl(decode(atts[i]).value))))
            && (r.Err? ==> exists i :: 0 <= i < n && decode(atts[i]) == Err(r.error)
                                     && forall j :: 0 <= j < i ==> decode(atts[j]).Ok?)
  {
    if n > 0 {
      RehydrationMeaning(atts, n - 1, decode, createObjectUrl);
    }
  }

  /** Once the first n attachments fail, the whole list fails with the same error. */
  lemma {:induction false} RehydrationErrorPersists(atts: seq<Attachment>, n: nat, decode: Decoder, createObjectUrl: DataUrl.File -> string)
    requires n <= |atts|
    requires RehydratedAttachments(atts, n, decode, createObjectUrl).Err?
    ensures RehydratedAttachments(atts, |atts|, decode, createObjectUrl) == RehydratedAttachments(atts, n, decode, createObjectUrl)
    decreases |atts| - n
  {
    if n < |atts| {
      RehydrationFailureStays(atts, n, decode, createObjectUrl);
      RehydrationErrorPersists(atts, n + 1, decode, createObjectUrl);
    }
  }

  /** The callback of `attachments.map(...)`, run: `dataURLtoFile` decodes the
      attachment and its `contentUrl` becomes the object URL of the file. */
  method RehydrateAttachment(attachment: Attachment, createObjectUrl: DataUrl.File -> string)
    returns (r: Result<Attachment, DataUrl.DataUrlError>)
    ensures r == RehydratedOne(attachment, DecodeAttachment, createObjectUrl)
  {
    if attachment.contentUrl.None? {
      return Err(DataUrl.NotAString);
    }
    var fileFormat := DataUrl.DataUrlToFile(attachment.contentUrl.value, attachment.name);
    if fileFormat.Err? {
      return Err(fileFormat.error);
    }
    return Ok(attachment.(contentUrl := Some(createObjectUrl(fileFormat.value))));
  }

  /** `attachments.map(...)`, run in order; the first throw ends it. */
  method RehydrateAttachments(atts: seq<Attachment>, createObjectUrl: DataUrl.File -> string)
    returns (r: Result<seq<Attachment>, DataUrl.DataUrlError>)
    ensures r == RehydratedAttachments(atts, |atts|, DecodeAttachment, createObjectUrl)
  {
    var mutatedAttachments: seq<Attachment> := [];
    for i := 0 to |atts|
      invariant RehydratedAttachments(atts, i, DecodeAttachment, createObjectUrl) == Ok(mutatedAttachments)
    {
      var next := RehydrateAttachment(atts[i], createObjectUrl);
      RehydrationNext(atts, i, DecodeAttachment, createObjectUrl, mutatedAttachments, next);
      if next.Err? {
        return Err(next.error);
      }
      mutatedAttachments := mutatedAttachments + [next.value];
    }
    return Ok(mutatedAttachments);
  }

  /** The replay activity after `getNextActivityInQueue` rewrote it, when it had
      at least one attachment, or the error that stopped it. */
  function Rehydrated(activity: Activity, createObjectUrl: DataUrl.File -> string): Result<Activity, DataUrl.DataUrlError> {
    match activity.attachments
    case Some(atts) =>
      if |atts| >= 1 then
        match RehydratedAttachments(atts, |atts|, DecodeAttachment, createObjectUrl)
        case Ok(mutated) => Ok(activity.(attachments := Some(mutated)))
        case Err(e) => Err(e)
      else Ok(activity)
    case None => Ok(activity)
  }

  // ---------------------------------------------------------------------------
  // The queue object

  class ConversationQueue {
    const activities: seq<Activity>
    const conversationId: string
    /** `createObjectUrlFromWindow`: turns a file into an object URL. */
    const createObjectUrl: DataUrl.File -> string

    var restartFlowOrder: seq<string>
    var restartFlow: map<string, CountMap>
    var replayActivities: map<string, Activity>
    var activitiesToBeProcessed: seq<string>

    /** The two maps share their keys, which are the recorded user ids; the
        order lists each key once; every ready id has a replay activity; every
        count is positive. */
    ghost predicate Valid()
      reads this
    {
      && Distinct(restartFlowOrder)
      && (forall u :: u in restartFlowOrder <==> u in restartFlow)
      && restartFlow.Keys == replayActivities.Keys
      && replayActivities.Keys == UserIds(activities)
      && (forall u :: u in activitiesToBeProcessed ==> u in replayActivities)
      && (forall u, k :: u in restartFlow && k in restartFlow[u] ==> restartFlow[u][k] >= 1)
    }

    /** `new ConversationQueue(conversationId, originalActivities, createObjectUrl)`,
        with the ready list starting empty. */
    constructor (conversationId: string, originalActivities: seq<Activity>, createObjectUrl: DataUrl.File -> string)
      ensures Valid()
      ensures this.conversationId == conversationId && activities == originalActivities
      ensures this.createObjectUrl == createObjectUrl
      ensures restartFlow == BuiltFlow(originalActivities)
      ensures restartFlowOrder == BuiltOrder(originalActivities)
      ensures replayActivities == BuiltReplay(originalActivities, conversationId)
      ensures activitiesToBeProcessed == []
    {
      activities := originalActivities;
      this.conversationId := conversationId;
      this.createObjectUrl := createObjectUrl;
      restartFlowOrder := [];
      restartFlow := map[];
      replayActivities := map[];
      activitiesToBeProcessed := [];
      new;
      BuildActivityQueue();
    }

    /** `buildActivityQueue`: both maps and the local counter start afresh, so the
        result depends on the recorded activities and the conversation id only
        (building twice leaves the same state). */
    method BuildActivityQueue()
      requires forall u :: u in activitiesToBeProcessed ==> u in UserIds(activities)
      modifies this`restartFlowOrder, this`restartFlow, this`replayActivities
      ensures Valid()
      ensures restartFlow == BuiltFlow(activities)
      ensures restartFlowOrder == BuiltOrder(activities)
      ensures replayActivities == BuiltReplay(activities, conversationId)
    {
      restartFlowOrder := [];
      restartFlow := map[];
      replayActivities := map[];
      var activityReplyCount: CountMap := map[];
      var i := 0;
      while i < |activities|
        invariant 0 <= i <= |activities|
        invariant restartFlow == BuiltFlow(activities[..i])
        invariant restartFlowOrder == BuiltOrder(activities[..i])
        invariant replayActivities == BuiltReplay(activities[..i], conversationId)
        invariant activityReplyCount == ReplyCounts(activities[..i])
      {
        var activity := activities[i];
        assert activities[..i + 1][..i] == activities[..i];
        BuiltKeys(activities[..i], conversationId);
        if activity.fromRole == UserRole {
          replayActivities := replayActivities[activity.id := ReplayCopy(activity, conversationId)];
          if activity.id !in restartFlow {
            restartFlowOrder := restartFlowOrder + [activity.id];
          }
          restartFlow := restartFlow[activity.id := activityReplyCount];
        } else {
          var before := if activity.id in activityReplyCount then activityReplyCount[activity.id] else 0;
          activityReplyCount := activityReplyCount[activity.id := before + 1];
        }
        i := i + 1;
      }
      assert activities[..i] == activities;
      BuiltKeys(activities, conversationId);
    }

    /** `traverseRestartFlowMap(incomingActivityId)`: every snapshot is decremented
        in insertion order and each user id whose snapshot is then empty is
        appended to the ready list; the keys of `restartFlow` never change. */
    method TraverseRestartFlowMap(incomingActivityId: string)
      requires Valid()
      modifies this`restartFlow, this`activitiesToBeProcessed
      ensures Valid()
      ensures restartFlow == TraversedFlow(old(restartFlow), incomingActivityId)
      ensures activitiesToBeProcessed == old(activitiesToBeProcessed) + ReadyIds(restartFlowOrder, restartFlow)
    {
      // `[...this.restartFlow.keys()]`
      var keys := restartFlowOrder;
      ghost var flow0 := restartFlow;
      restartFlow, activitiesToBeProcessed := VisitKeys(keys, restartFlow, activitiesToBeProcessed, incomingActivityId);
      TraversalKeepsCountsPositive(flow0, incomingActivityId);
      ReadyIdsMembers(keys, restartFlow);
    }

    /** `getNextActivityInQueue()`: with an empty ready list nothing changes;
        otherwise the front id is removed and, when its replay activity has
        attachments, their content URLs are rewritten in place. It never returns
        the activity. */
    method GetNextActivityInQueue() returns (c: Completion)
      requires Valid()
      modifies this`activitiesToBeProcessed, this`replayActivities
      ensures Valid()
      ensures old(activitiesToBeProcessed) == [] ==>
                c == ReturnedUndefined && activitiesToBeProcessed == [] &&
                replayActivities == old(replayActivities)
      ensures old(activitiesToBeProcessed) != [] ==>
                && activitiesToBeProcessed == old(activitiesToBeProcessed)[1..]
                && var id := old(activitiesToBeProcessed)[0];
                   match Rehydrated(old(replayActivities)[id], createObjectUrl)
                   case Ok(a) => c == ReturnedUndefined && replayActivities == old(replayActivities)[id := a]
                   case Err(e) => c == Threw(e) && replayActivities == old(replayActivities)
    {
      if |activitiesToBeProcessed| > 0 {
        var activityId := activitiesToBeProcessed[0];
        activitiesToBeProcessed := activitiesToBeProcessed[1..];
        var activity := replayActivities[activityId];
        if activity.attachments.Some? && |activity.attachments.value| >= 1 {
          var mutatedAttachments := RehydrateAttachments(activity.attachments.value, createObjectUrl);
          if mutatedAttachments.Err? {
            return Threw(mutatedAttachments.error);
          }
          replayActivities := replayActivities[activityId := activity.(attachments := Some(mutatedAttachments.value))];
        }
        c := ReturnedUndefined;
      } else {
        c := ReturnedUndefined;
      }
    }
  }
}
