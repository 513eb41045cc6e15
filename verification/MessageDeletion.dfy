/** Deleting a message locally, and merging a later remote transcript without bringing it back
    (internal/app/conversation_message_delete.go:25-93, internal/app/admin_conversations.go:116-257). */
module MessageDeletion {
  import opened Wrappers
  import opened Text
  import opened TranscriptMerge

  /** What deletion and merging use of a conversation. */
  datatype Conversation = Conversation(
    status: string, messageId: string, messages: seq<Message>,
    deletedIds: seq<string>, legacyTurns: map<string, string>)

  datatype DeleteError = ConversationBusy | MessageNotFound

  /** conversationStatusBusy */
  predicate Busy(status: string) {
    LowerAscii(Trim(status)) == "running"
  }

  // ---- Turns ----------------------------------------------------------------------------------

  /** Scans back from position i for the single user text step of the turn; user is the one met so far. */
  function ScanTurn(messages: seq<Message>, i: nat, user: Option<Message>): Option<Message>
    requires i <= |messages|
  {
    if i == 0 then user
    else
      var m := messages[i - 1];
      if m.role == "assistant" then user
      else if m.role != "user" || m.stepType == "attachment" then ScanTurn(messages, i - 1, user)
      else if user.Some? && user.value.id != "" then None
      else ScanTurn(messages, i - 1, Some(m))
  }

  /** precedingTurnUser */
  function PrecedingTurnUser(messages: seq<Message>, assistantIndex: nat): Option<Message>
    requires assistantIndex <= |messages|
  {
    var user := ScanTurn(messages, assistantIndex, None);
    if user.Some? && user.value.id != "" then user else None
  }

  method FindTurnUser(messages: seq<Message>, assistantIndex: nat) returns (user: Option<Message>)
    requires assistantIndex <= |messages|
    ensures user == PrecedingTurnUser(messages, assistantIndex)
  {
    user := None;
    var i: nat := assistantIndex;
    while i > 0
      invariant i <= assistantIndex <= |messages|
      invariant ScanTurn(messages, i, user) == ScanTurn(messages, assistantIndex, None)
    {
      var message := messages[i - 1];
      if message.role == "assistant" {
        assert ScanTurn(messages, i, user) == user;
        break;
      }
      if message.role == "user" && message.stepType != "attachment" {
        if user.Some? && user.value.id != "" {
          return None;
        }
        user := Some(message);
      }
      i := i - 1;
    }
    if user.Some? && user.value.id == "" {
      user := None;
    }
  }

  // ---- Deleting -------------------------------------------------------------------------------

  /** containsTrimmedString */
  predicate ContainsTrimmed(values: seq<string>, target: string) {
    Trim(target) != "" && exists v :: v in values && Trim(v) == Trim(target)
  }

  /** The identity under which the answer at position i will be found upstream. */
  function TurnAnchor(c: Conversation, i: nat): string
    requires i < |c.messages|
  {
    if i == |c.messages| - 1 && c.messageId != "" && !ContainsTrimmed(c.deletedIds, c.messageId) then c.messageId
    else FirstNonEmpty(c.messages[i].upstream, c.messages[i].id)
  }

  /** The user step, if any, that the answer at position i pairs with for want of an upstream id. */
  function LegacyUser(c: Conversation, i: nat): Option<Message>
    requires i < |c.messages|
  {
    if c.messages[i].role != "assistant" then None
    else
      var user := PrecedingTurnUser(c.messages, i);
      if user.Some? && user.value.upstream == "" then user else None
  }

  /** The recorded pairs after looking at the answers before position n; the first record of a user stays. */
  function CapturedTurns(c: Conversation, n: nat): map<string, string>
    requires n <= |c.messages|
  {
    if n == 0 then c.legacyTurns
    else
      var turns := CapturedTurns(c, n - 1);
      var user := LegacyUser(c, n - 1);
      if user.Some? && (user.value.id !in turns || turns[user.value.id] == "")
      then turns[user.value.id := TurnAnchor(c, n - 1)]
      else turns
  }

  method AnchorOf(c: Conversation, i: nat) returns (anchor: string)
    requires i < |c.messages|
    ensures anchor == TurnAnchor(c, i)
  {
    hide ContainsTrimmed, FirstNonEmpty;
    anchor := FirstNonEmpty(c.messages[i].upstream, c.messages[i].id);
    if i == |c.messages| - 1 && c.messageId != "" && !ContainsTrimmed(c.deletedIds, c.messageId) {
      anchor := c.messageId;
    }
  }

  method CaptureTurns(c: Conversation) returns (turns: map<string, string>)
    ensures turns == CapturedTurns(c, |c.messages|)
  {
    hide PrecedingTurnUser, TurnAnchor;
    turns := c.legacyTurns;
    for i := 0 to |c.messages|
      invariant turns == CapturedTurns(c, i)
    {
      if c.messages[i].role == "assistant" {
        var user := FindTurnUser(c.messages, i);
        if user.Some? && user.value.upstream == "" {
          var anchor := AnchorOf(c, i);
          if user.value.id !in turns || turns[user.value.id] == "" {
            turns := turns[user.value.id := anchor];
          }
        }
      }
    }
  }

  function IndexOfMessage(messages: seq<Message>, id: string): (i: int)
    ensures -1 <= i < |messages|
    ensures i >= 0 ==> id != "" && messages[i].id == id && forall k :: 0 <= k < i ==> messages[k].id != id
    ensures i < 0 ==> id == "" || forall k :: 0 <= k < |messages| ==> messages[k].id != id
  {
    if id == "" || messages == [] then -1
    else if messages[0].id == id then 0
    else
      var rest := IndexOfMessage(messages[1..], id);
      assert forall k :: 1 <= k < |messages| ==> messages[k] == messages[1..][k - 1];
      if rest < 0 then -1 else rest + 1
  }

  /** The tombstones a deletion of the message at position i leaves. */
  function Tombstones(c: Conversation, i: nat): seq<string>
    requires i < |c.messages|
  {
    var m := c.messages[i];
    [m.id]
    + (if m.upstream != "" then [m.upstream] else [])
    + (if i == |c.messages| - 1 && m.role == "assistant" && c.messageId != "" then [c.messageId] else [])
  }

  function DeleteAt(c: Conversation, i: nat): Conversation
    requires i < |c.messages|
  {
    c.(messages := c.messages[..i] + c.messages[i + 1..],
       deletedIds := c.deletedIds + Tombstones(c, i),
       legacyTurns := CapturedTurns(c, |c.messages|))
  }

  /** DeleteMessage */
  function Delete(c: Conversation, id: string): Result<Conversation, DeleteError> {
    if Busy(c.status) || c.status == "deleting" then Err(ConversationBusy)
    else
      var i := IndexOfMessage(c.messages, Trim(id));
      if i < 0 then Err(MessageNotFound) else Ok(DeleteAt(c, i))
  }

  method FindMessage(messages: seq<Message>, id: string) returns (index: int)
    ensures index == IndexOfMessage(messages, id)
  {
    for i := 0 to |messages|
      invariant forall k :: 0 <= k < i ==> messages[k].id != id || messages[k].id == ""
    {
      if messages[i].id == id && messages[i].id != "" {
        return i;
      }
    }
    return -1;
  }

  method DeleteMessage(c: Conversation, id: string) returns (r: Result<Conversation, DeleteError>)
    ensures r == Delete(c, id)
  {
    hide CapturedTurns, Busy, Trim;
    if Busy(c.status) || c.status == "deleting" {
      return Err(ConversationBusy);
    }
    var index := FindMessage(c.messages, Trim(id));
    if index < 0 {
      return Err(MessageNotFound);
    }
    var turns := CaptureTurns(c);
    var message := c.messages[index];
    var tombstones := [message.id];
    if message.upstream != "" {
      tombstones := tombstones + [message.upstream];
    }
    if index == |c.messages| - 1 && message.role == "assistant" && c.messageId != "" {
      tombstones := tombstones + [c.messageId];
    }
    assert tombstones == Tombstones(c, index);
    return Ok(c.(messages := c.messages[..index] + c.messages[index + 1..],
                 deletedIds := c.deletedIds + tombstones, legacyTurns := turns));
  }

  // ---- Merging with the remote transcript -----------------------------------------------------

  /** The answers whose user step has been deleted. */
  function DeletedTurns(c: Conversation): set<string> {
    set userId | userId in c.legacyTurns && userId in c.deletedIds :: c.legacyTurns[userId]
  }

  /** The ids of the remote user steps that belong to a deleted turn, looking at the first n messages. */
  function DeletedTurnUsers(c: Conversation, remote: seq<Message>, n: nat): set<string>
    requires n <= |remote|
  {
    if n == 0 then {}
    else
      var user := PrecedingTurnUser(remote, n - 1);
      DeletedTurnUsers(c, remote, n - 1)
      + if remote[n - 1].role == "assistant" && remote[n - 1].id in DeletedTurns(c) && user.Some?
        then {user.value.id} else {}
  }

  function HiddenIds(c: Conversation, remote: seq<Message>): set<string> {
    (set id | id in c.deletedIds) + DeletedTurnUsers(c, remote, |remote|)
  }

  /** A remote message with what only the paired local message knows: id, edit, truncation, attachments. */
  function Adopt(m: Message, priors: map<string, Message>): Message {
    var own := m.(upstream := FirstNonEmpty(m.upstream, m.id));
    if m.id in priors && priors[m.id].role == m.role then
      var prior := priors[m.id];
      var paired := own.(
        upstream := m.id, id := prior.id,
        requestedModel := FirstNonEmpty(prior.requestedModel, m.requestedModel),
        attachments := if m.attachments == [] then prior.attachments else m.attachments,
        truncated := m.truncated || prior.truncated);
      if prior.editedAt.Some? then paired.(content := prior.content, editedAt := prior.editedAt) else paired
    else own
  }

  function VisibleRemote(remote: seq<Message>, priors: map<string, Message>, hidden: set<string>): seq<Message> {
    if remote == [] then []
    else
      var m := remote[|remote| - 1];
      VisibleRemote(remote[..|remote| - 1], priors, hidden)
      + if m.id in hidden || Adopt(m, priors).id in hidden then [] else [Adopt(m, priors)]
  }

  /** The messages shown after merging, given the local message each remote id is paired with. */
  function MergedMessages(local: Conversation, remote: seq<Message>, priors: map<string, Message>): seq<Message> {
    if Busy(local.status) || local.status == "failed" || remote == [] then local.messages
    else
      var hidden := HiddenIds(local, remote);
      Retain(local.messages, VisibleRemote(remote, priors, hidden), hidden)
  }

  method CollectHidden(local: Conversation, remote: seq<Message>) returns (hidden: set<string>)
    ensures hidden == HiddenIds(local, remote)
  {
    var turns := DeletedTurns(local);
    hidden := set id | id in local.deletedIds;
    for i := 0 to |remote|
      invariant hidden == (set id | id in local.deletedIds) + DeletedTurnUsers(local, remote, i)
    {
      if remote[i].role == "assistant" && remote[i].id in turns {
        var user := FindTurnUser(remote, i);
        if user.Some? {
          hidden := hidden + {user.value.id};
        }
      }
    }
  }

  // ---- Pairing remote ids with local messages -------------------------------------------------

  /** The local message each id, own or upstream, names among the first n; later messages win. */
  function NamedById(local: Conversation, n: nat): map<string, Message>
    requires n <= |local.messages|
  {
    if n == 0 then map[]
    else
      var m := local.messages[n - 1];
      var own := if m.id != "" then NamedById(local, n - 1)[m.id := m] else NamedById(local, n - 1);
      if m.upstream != "" then own[m.upstream := m] else own
  }

  /** The positions of the answers among the first n messages, under either id. */
  function AnswersById(local: Conversation, n: nat): (r: map<string, nat>)
    requires n <= |local.messages|
    ensures forall id :: id in r ==> r[id] < n
  {
    if n == 0 then map[]
    else
      var m := local.messages[n - 1];
      var before := AnswersById(local, n - 1);
      if m.role != "assistant" then before
      else
        var own := if m.id != "" then before[m.id := n - 1] else before;
        if m.upstream != "" then own[m.upstream := n - 1] else own
  }

  /** The conversation's own message id names its last answer. */
  predicate NamesLast(local: Conversation) {
    && local.status == "completed" && local.messageId != "" && !ContainsTrimmed(local.deletedIds, local.messageId)
    && local.messages != [] && local.messages[|local.messages| - 1].role == "assistant"
  }

  function LocalById(local: Conversation): map<string, Message> {
    var n := |local.messages|;
    if NamesLast(local) then NamedById(local, n)[local.messageId := local.messages[n - 1]] else NamedById(local, n)
  }

  function LocalAnswers(local: Conversation): (r: map<string, nat>)
    ensures forall id :: id in r ==> r[id] < |local.messages|
  {
    var n := |local.messages|;
    if NamesLast(local) then AnswersById(local, n)[local.messageId := n - 1] else AnswersById(local, n)
  }

  method IndexLocal(local: Conversation) returns (byId: map<string, Message>, answers: map<string, nat>)
    ensures byId == LocalById(local) && answers == LocalAnswers(local)
  {
    hide ContainsTrimmed;
    byId, answers := map[], map[];
    for i := 0 to |local.messages|
      invariant byId == NamedById(local, i) && answers == AnswersById(local, i)
    {
      var m := local.messages[i];
      if m.id != "" {
        byId := byId[m.id := m];
        if m.role == "assistant" { answers := answers[m.id := i]; }
      }
      if m.upstream != "" {
        byId := byId[m.upstream := m];
        if m.role == "assistant" { answers := answers[m.upstream := i]; }
      }
    }
    if local.status == "completed" && local.messageId != "" && !ContainsTrimmed(local.deletedIds, local.messageId)
       && |local.messages| > 0
    {
      var i := |local.messages| - 1;
      if local.messages[i].role == "assistant" {
        byId, answers := byId[local.messageId := local.messages[i]], answers[local.messageId := i];
      }
    }
  }

  /** A user step that the conversation recorded for the answer. */
  predicate RecordedFor(local: Conversation, userId: string, answer: string) {
    && userId in local.legacyTurns && local.legacyTurns[userId] == answer
    && userId in LocalById(local) && LocalById(local)[userId].role == "user"
  }

  /** Every answer with a recorded user has one; when two users share an answer either may be found. */
  ghost predicate AreLegacyUsers(local: Conversation, users: map<string, Message>) {
    && (forall a :: a in users ==> exists u :: RecordedFor(local, u, a) && users[a] == LocalById(local)[u])
    && (forall u :: u in local.legacyTurns && RecordedFor(local, u, local.legacyTurns[u]) ==> local.legacyTurns[u] in users)
  }

  method LegacyUsers(local: Conversation, byId: map<string, Message>) returns (users: map<string, Message>)
    requires byId == LocalById(local)
    ensures AreLegacyUsers(local, users)
  {
    hide LocalById;
    users := map[];
    var todo := local.legacyTurns.Keys;
    while todo != {}
      invariant todo <= local.legacyTurns.Keys
      invariant forall a :: a in users ==> exists u :: RecordedFor(local, u, a) && users[a] == LocalById(local)[u]
      invariant forall u ::
        u in local.legacyTurns && u !in todo && RecordedFor(local, u, local.legacyTurns[u]) ==> local.legacyTurns[u] in users
      decreases |todo|
    {
      var userId :| userId in todo;
      todo := todo - {userId};
      if userId in byId && byId[userId].role == "user" {
        assert RecordedFor(local, userId, local.legacyTurns[userId]);
        users := users[local.legacyTurns[userId] := byId[userId]];
      }
    }
  }

  /** The local user step that belongs to a remote answer. */
  function LocalTurnUser(local: Conversation, users: map<string, Message>, answer: string): Option<Message> {
    if answer in LocalAnswers(local) then PrecedingTurnUser(local.messages, LocalAnswers(local)[answer])
    else if answer in users then Some(users[answer])
    else None
  }

  /** conversationMergeMessages: the pairs after the first n remote messages. A remote user step that no
      local id names is paired with the user step of the same turn, if that has no upstream id. */
  function Paired(local: Conversation, remote: seq<Message>, users: map<string, Message>, n: nat): map<string, Message>
    requires n <= |remote|
  {
    if n == 0 then LocalById(local)
    else
      var priors := Paired(local, remote, users, n - 1);
      var m := remote[n - 1];
      var localUser, remoteUser := LocalTurnUser(local, users, m.id), PrecedingTurnUser(remote, n - 1);
      if m.role == "assistant" && localUser.Some? && remoteUser.Some? && localUser.value.upstream == ""
         && remoteUser.value.id !in priors
      then priors[remoteUser.value.id := localUser.value]
      else priors
  }

  ghost predicate IsPairing(local: Conversation, remote: seq<Message>, priors: map<string, Message>) {
    exists users :: AreLegacyUsers(local, users) && priors == Paired(local, remote, users, |remote|)
  }

  method PairWithLocal(local: Conversation, remote: seq<Message>) returns (priors: map<string, Message>)
    ensures IsPairing(local, remote, priors)
  {
    hide PrecedingTurnUser, LocalById, LocalAnswers, AreLegacyUsers;
    var answers;
    priors, answers := IndexLocal(local);
    var users := LegacyUsers(local, priors);
    for i := 0 to |remote|
      invariant priors == Paired(local, remote, users, i)
    {
      var m := remote[i];
      if m.role == "assistant" {
        var localUser := if m.id in users then Some(users[m.id]) else None;
        if m.id in answers {
          localUser := FindTurnUser(local.messages, answers[m.id]);
        }
        var remoteUser := FindTurnUser(remote, i);
        if localUser.Some? && remoteUser.Some? && localUser.value.upstream == "" && remoteUser.value.id !in priors {
          priors := priors[remoteUser.value.id := localUser.value];
        }
      }
    }
  }

  lemma {:induction false} NamedAreNamed(local: Conversation, n: nat, id: string)
    requires n <= |local.messages| && id in NamedById(local, n)
    ensures NamedById(local, n)[id] in local.messages
    ensures id != "" && (NamedById(local, n)[id].id == id || NamedById(local, n)[id].upstream == id)
  {
    if id in NamedById(local, n - 1) {
      NamedAreNamed(local, n - 1, id);
    }
  }

  /** Why a remote id is paired with a local message: the message bears it as its own or upstream id, it is
      the conversation's message id and the message the last answer, or both are user steps without a shared id. */
  predicate PairedFor(local: Conversation, id: string, m: Message) {
    && m in local.messages
    && (m.id == id || m.upstream == id || (NamesLast(local) && id == local.messageId) || (m.role == "user" && m.upstream == ""))
  }

  lemma LocalByIdPairs(local: Conversation, id: string)
    requires id in LocalById(local)
    ensures PairedFor(local, id, LocalById(local)[id])
  {
    hide ContainsTrimmed;
    if !(NamesLast(local) && id == local.messageId) {
      NamedAreNamed(local, |local.messages|, id);
    }
  }

  lemma {:induction false} ScannedUserIsMessage(messages: seq<Message>, i: nat, user: Option<Message>)
    requires i <= |messages|
    ensures var r := ScanTurn(messages, i, user);
      r.Some? ==> r == user || (r.value in messages && r.value.role == "user")
  {
    if i > 0 {
      var m := messages[i - 1];
      if m.role == "assistant" {
      } else if m.role != "user" || m.stepType == "attachment" {
        ScannedUserIsMessage(messages, i - 1, user);
      } else {
        ScannedUserIsMessage(messages, i - 1, Some(m));
      }
    }
  }

  lemma TurnUserIsMessage(messages: seq<Message>, i: nat)
    requires i <= |messages|
    ensures var r := PrecedingTurnUser(messages, i);
      r.Some? ==> r.value in messages && r.value.role == "user"
  {
    ScannedUserIsMessage(messages, i, None);
  }

  lemma TurnUserPairs(local: Conversation, users: map<string, Message>, answer: string, id: string)
    requires AreLegacyUsers(local, users) && LocalTurnUser(local, users, answer).Some?
    requires LocalTurnUser(local, users, answer).value.upstream == ""
    ensures PairedFor(local, id, LocalTurnUser(local, users, answer).value)
  {
    hide LocalById, LocalAnswers, PrecedingTurnUser, ContainsTrimmed;
    if answer in LocalAnswers(local) {
      TurnUserIsMessage(local.messages, LocalAnswers(local)[answer]);
    } else {
      var u :| RecordedFor(local, u, answer) && users[answer] == LocalById(local)[u];
      LocalByIdPairs(local, u);
    }
  }

  /** A remote id is only ever paired with a local message for one of these reasons, and an id that names
      a local message keeps that pair. */
  lemma {:induction false} PairsHaveReasons(local: Conversation, remote: seq<Message>, users: map<string,
        Message>, n: nat, id: string)
    requires n <= |remote| && AreLegacyUsers(local, users)
    ensures id in LocalById(local) ==>
      id in Paired(local, remote, users, n) && Paired(local, remote, users, n)[id] == LocalById(local)[id]
    ensures id in Paired(local, remote, users, n) ==> PairedFor(local, id, Paired(local, remote, users, n)[id])
    decreases n
  {
    hide LocalById, LocalTurnUser, PrecedingTurnUser, AreLegacyUsers, PairedFor;
    if n == 0 {
      if id in LocalById(local) {
        LocalByIdPairs(local, id);
      }
    } else {
      PairsHaveReasons(local, remote, users, n - 1, id);
      var user := LocalTurnUser(local, users, remote[n - 1].id);
      if user.Some? && user.value.upstream == "" {
        TurnUserPairs(local, users, remote[n - 1].id, id);
      }
    }
  }

  /** A running or failed conversation is left alone; any other is merged with a pairing of the remote transcript. */
  ghost predicate IsMerge(local: Conversation, remote: seq<Message>, messages: seq<Message>) {
    if Busy(local.status) || local.status == "failed" || remote == [] then messages == local.messages
    else exists priors :: IsPairing(local, remote, priors) && messages == MergedMessages(local, remote, priors)
  }

  /** The message part of mergeConversationEntry. */
  method MergeConversation(local: Conversation, remote: seq<Message>) returns (messages: seq<Message>)
    ensures IsMerge(local, remote, messages)
  {
    hide Retain, VisibleRemote, HiddenIds, Busy, IsPairing;
    if Busy(local.status) || local.status == "failed" || |remote| == 0 {
      return local.messages;
    }
    var hidden := CollectHidden(local, remote);
    var pairs := PairWithLocal(local, remote);
    var visible := ShowRemote(remote, pairs, hidden);
    messages := RetainLocalMessages(local.messages, visible, hidden);
    assert IsPairing(local, remote, pairs) && messages == MergedMessages(local, remote, pairs);
  }

  method ShowRemote(remote: seq<Message>, pairs: map<string, Message>, hidden: set<string>)
    returns (visible: seq<Message>)
    ensures visible == VisibleRemote(remote, pairs, hidden)
  {
    hide Adopt;
    visible := [];
    for i := 0 to |remote|
      invariant visible == VisibleRemote(remote[..i], pairs, hidden)
    {
      assert remote[..i + 1][..i] == remote[..i];
      var m := remote[i];
      if m.id !in hidden {
        var adopted := Adopt(m, pairs);
        if adopted.id !in hidden {
          visible := visible + [adopted];
        }
      }
    }
    assert remote[..|remote|] == remote;
  }

  // ---- An edit is never undone ----------------------------------------------------------------

  /** Every message of that id and role shows the text of the edited one. */
  predicate ShowsEdit(messages: seq<Message>, m: Message) {
    forall x :: x in messages && x.id == m.id && x.role == m.role ==> x.content == m.content
  }

  /** The pairing takes every local id to a message of that id. */
  predicate NamesLocal(local: Conversation, priors: map<string, Message>, m: Message) {
    && m.id in priors && priors[m.id] == m
    && (forall id :: id in priors ==> priors[id] in local.messages)
  }

  lemma AdoptedShowsEdit(local: Conversation, r: Message, priors: map<string, Message>, m: Message)
    requires DistinctIds(local.messages) && m in local.messages && m.editedAt.Some? && NamesLocal(local, priors, m)
    ensures var x := Adopt(r, priors); x.id == m.id && x.role == m.role ==> x.content == m.content
  {
    hide Trim, FirstNonEmpty;
  }

  lemma {:induction false} VisibleShowsEdit(local: Conversation, remote: seq<Message>, priors: map<string, Message>,
                                            hidden: set<string>, m: Message)
    requires DistinctIds(local.messages) && m in local.messages && m.editedAt.Some? && NamesLocal(local, priors, m)
    ensures ShowsEdit(VisibleRemote(remote, priors, hidden), m)
    decreases |remote|
  {
    hide Adopt, DistinctIds, NamesLocal;
    if remote != [] {
      VisibleShowsEdit(local, remote[..|remote| - 1], priors, hidden, m);
      AdoptedShowsEdit(local, remote[|remote| - 1], priors, m);
    }
  }

  lemma DistinctOwner(local: seq<Message>, x: Message, m: Message)
    requires DistinctIds(local) && x in local && m in local && x.id == m.id
    ensures x == m
  {
  }

  lemma {:induction false} LocalOnlyIsListed(local: seq<Message>, remoteIds: set<string>, deleted: set<string>, m: Message)
    requires m in local && LocalOnly(m, remoteIds, deleted)
    ensures m in LocalOnlyOf(local, remoteIds, deleted)
    decreases |local|
  {
    hide LocalOnly;
    if m in local[..|local| - 1] {
      LocalOnlyIsListed(local[..|local| - 1], remoteIds, deleted, m);
    }
  }

  /** A message that is not hidden is shown under its id, by its remote counterpart or by itself. */
  lemma KeptIsShown(local: seq<Message>, visible: seq<Message>, hidden: set<string>, m: Message)
    requires m in local && Kept(m, hidden)
    ensures exists x :: x in Retain(local, visible, hidden) && x.id == m.id
  {
    hide Retain, LocalOnlyOf, Dedup, Group, Kept;
    MergeConserves(local, visible, hidden);
    var shown := Retain(local, visible, hidden);
    if m.id in IdSet(visible) {
      DedupIds(visible);
      assert m.id in IdSet(Dedup(visible));
      var x :| x in Dedup(visible) && x.id == m.id;
      assert x in multiset(Dedup(visible)) && x in multiset(shown);
    } else {
      LocalOnlyIsListed(local, IdSet(visible), hidden, m);
      assert m in multiset(LocalOnlyOf(local, IdSet(visible), hidden)) && m in multiset(shown);
    }
  }

  /** Some message shows the edited text under the edited message's own id and role. */
  predicate EditShown(messages: seq<Message>, m: Message) {
    exists x :: x in messages && x.id == m.id && x.role == m.role && x.content == m.content
  }

  /** The first remote message shown under the id of the edited one has another role. */
  predicate TakenOver(visible: seq<Message>, m: Message) {
    exists x :: x in Dedup(visible) && x.id == m.id && x.role != m.role
  }

  lemma SameInDedup(visible: seq<Message>, x: Message, y: Message)
    requires x in Dedup(visible) && y in Dedup(visible) && x.id == y.id
    ensures x == y
  {
    hide Dedup;
    DedupIds(visible);
  }

  lemma ShownUnderId(local: seq<Message>, visible: seq<Message>, hidden: set<string>, x: Message)
    requires x in Retain(local, visible, hidden) && x.id in IdSet(visible)
    ensures x in Dedup(visible)
  {
    hide Retain, Dedup, Group, LocalOnly;
    MergeConserves(local, visible, hidden);
    var remoteIds := IdSet(visible);
    LocalOnlyIsLocalOnly(local, remoteIds, hidden);
    GroupIsLocalOnly(local, remoteIds, hidden, "");
    assert x in multiset(Retain(local, visible, hidden));
    if x in LocalOnlyOf(local, remoteIds, hidden) || x in Group(local, remoteIds, hidden, "") {
      assert LocalOnly(x, remoteIds, hidden);
      LocalOnlyIsElsewhere(x, remoteIds, hidden);
    }
  }

  lemma LocalOnlyIsElsewhere(m: Message, remoteIds: set<string>, deleted: set<string>)
    requires LocalOnly(m, remoteIds, deleted)
    ensures m.id !in remoteIds
  {
  }

  lemma {:induction false} LocalOnlyIsLocalOnly(local: seq<Message>, remoteIds: set<string>, deleted: set<string>)
    ensures forall m :: m in LocalOnlyOf(local, remoteIds, deleted) ==> LocalOnly(m, remoteIds, deleted)
    decreases |local|
  {
    hide LocalOnly;
    if local != [] {
      LocalOnlyIsLocalOnly(local[..|local| - 1], remoteIds, deleted);
    }
  }

  /** An edited message that is not hidden is shown with its text exactly if no remote message of another
      role takes its id first. */
  lemma EditShownExactly(local: seq<Message>, visible: seq<Message>, hidden: set<string>, m: Message)
    requires m in local && Kept(m, hidden) && ShowsEdit(visible, m)
    ensures EditShown(Retain(local, visible, hidden), m) <==> !TakenOver(visible, m)
  {
    hide Retain, Dedup, Group, Kept, ShowsEdit;
    var shown := Retain(local, visible, hidden);
    MergeConserves(local, visible, hidden);
    DedupIds(visible);
    if m.id in IdSet(visible) {
      var x :| x in Dedup(visible) && x.id == m.id;
      assert x in multiset(Dedup(visible)) && x in multiset(shown);
      FirstShowsEdit(visible, x, m);
      if EditShown(shown, m) {
        var y :| y in shown && y.id == m.id && y.role == m.role && y.content == m.content;
        ShownUnderId(local, visible, hidden, y);
      }
      forall y | y in Dedup(visible) && y.id == m.id ensures y == x {
        SameInDedup(visible, x, y);
      }
    } else {
      LocalOnlyIsListed(local, IdSet(visible), hidden, m);
      assert m in multiset(LocalOnlyOf(local, IdSet(visible), hidden)) && m in multiset(shown);
      assert forall x :: x in Dedup(visible) ==> x.id in IdSet(Dedup(visible));
    }
  }

  lemma FirstShowsEdit(visible: seq<Message>, x: Message, m: Message)
    requires ShowsEdit(visible, m) && x in Dedup(visible) && x.id == m.id
    ensures x.role == m.role ==> x.content == m.content
  {
    DedupIsPart(visible);
  }

  lemma {:induction false} DedupIsPart(visible: seq<Message>)
    ensures forall x :: x in Dedup(visible) ==> x in visible
    decreases |visible|
  {
    if visible != [] {
      DedupIsPart(visible[..|visible| - 1]);
    }
  }

  /** Only a remote message that carries the id itself, under another role, can take it over. */
  lemma {:induction false} TakenOverByItsId(local: Conversation, remote: seq<Message>, priors: map<string, Message>,
                                            hidden: set<string>, m: Message)
    requires DistinctIds(local.messages) && m in local.messages && NamesLocal(local, priors, m)
    requires forall r :: r in remote && r.id == m.id ==> r.role == m.role
    ensures forall x :: x in VisibleRemote(remote, priors, hidden) && x.id == m.id ==> x.role == m.role
    decreases |remote|
  {
    hide Adopt, DistinctIds, NamesLocal;
    if remote != [] {
      var init, r := remote[..|remote| - 1], remote[|remote| - 1];
      assert r in remote && forall x :: x in init ==> x in remote;
      TakenOverByItsId(local, init, priors, hidden, m);
      AdoptedRole(local, r, priors, m);
    }
  }

  lemma AdoptedRole(local: Conversation, r: Message, priors: map<string, Message>, m: Message)
    requires DistinctIds(local.messages) && m in local.messages && NamesLocal(local, priors, m)
    requires r.id == m.id ==> r.role == m.role
    ensures Adopt(r, priors).id == m.id ==> Adopt(r, priors).role == m.role
  {
    hide Trim, FirstNonEmpty;
  }

  lemma RetainShowsEdit(local: seq<Message>, visible: seq<Message>, hidden: set<string>, m: Message)
    requires DistinctIds(local) && m in local && ShowsEdit(visible, m)
    ensures ShowsEdit(Retain(local, visible, hidden), m)
  {
    hide Group, Emit, LocalOnly, IdSet, DistinctIds;
    EmittedFrom(visible, local, IdSet(visible), hidden);
    GroupIsLocalOnly(local, IdSet(visible), hidden, "");
    forall x | x in Retain(local, visible, hidden) && x in local && x.id == m.id ensures x == m {
      DistinctOwner(local, x, m);
    }
  }

  lemma {:induction false} NamedKeepsOwn(local: Conversation, k: nat, n: nat)
    requires DistinctIdentities(local) && k < n <= |local.messages| && local.messages[k].id != ""
    ensures local.messages[k].id in NamedById(local, n) && NamedById(local, n)[local.messages[k].id] == local.messages[k]
    decreases n
  {
    if n - 1 > k {
      NamedKeepsOwn(local, k, n - 1);
    }
  }

  lemma OwnIdNames(local: Conversation, m: Message)
    requires DistinctIdentities(local) && m in local.messages && m.id != ""
    ensures m.id in LocalById(local) && LocalById(local)[m.id] == m
  {
    hide NamedById, ContainsTrimmed;
    var k :| 0 <= k < |local.messages| && local.messages[k] == m;
    NamedKeepsOwn(local, k, |local.messages|);
  }

  lemma PairingNamesLocal(local: Conversation, remote: seq<Message>, priors: map<string, Message>, m: Message)
    requires DistinctIdentities(local) && IsPairing(local, remote, priors) && m in local.messages && m.id != ""
    ensures NamesLocal(local, priors, m)
  {
    hide DistinctIdentities, LocalById, AreLegacyUsers, Paired;
    OwnIdNames(local, m);
    var users :| AreLegacyUsers(local, users) && priors == Paired(local, remote, users, |remote|);
    PairsHaveReasons(local, remote, users, |remote|, m.id);
    forall id | id in priors ensures priors[id] in local.messages {
      PairsHaveReasons(local, remote, users, |remote|, id);
    }
  }

  /** A hand-edited message is never reverted by a sync: whatever the remote transcript says, what is shown
      under its id and role has the edited text, something is shown under its id unless it was deleted,
      and that is the edited text unless a remote message has the id under another role. */
  lemma EditSurvivesSync(local: Conversation, remote: seq<Message>, messages: seq<Message>, m: Message)
    requires IsMerge(local, remote, messages) && DistinctIdentities(local)
    requires m in local.messages && m.id != "" && m.editedAt.Some?
    ensures ShowsEdit(messages, m)
    ensures Kept(m, HiddenIds(local, remote)) ==> exists x :: x in messages && x.id == m.id
    ensures Kept(m, HiddenIds(local, remote)) && (forall r :: r in remote && r.id == m.id ==> r.role == m.role) ==>
      EditShown(messages, m)
  {
    hide Busy, IsPairing, HiddenIds, VisibleRemote, Retain, Kept, ShowsEdit, NamesLocal, EditShown;
    IdentitiesAreIds(local);
    if Busy(local.status) || local.status == "failed" || remote == [] {
      OwnTextShows(local.messages, m);
    } else {
      hide DistinctIdentities, DistinctIds;
      var priors :| IsPairing(local, remote, priors) && messages == MergedMessages(local, remote, priors);
      PairingNamesLocal(local, remote, priors, m);
      EditMerges(local, remote, priors, m);
    }
  }

  lemma EditMerges(local: Conversation, remote: seq<Message>, priors: map<string, Message>, m: Message)
    requires DistinctIds(local.messages) && m in local.messages && m.editedAt.Some? && NamesLocal(local, priors, m)
    ensures var hidden := HiddenIds(local, remote);
      var messages := Retain(local.messages, VisibleRemote(remote, priors, hidden), hidden);
      && ShowsEdit(messages, m)
      && (Kept(m, hidden) ==> exists x :: x in messages && x.id == m.id)
      && (Kept(m, hidden) && (forall r :: r in remote && r.id == m.id ==> r.role == m.role) ==> EditShown(messages, m))
  {
    hide HiddenIds, VisibleRemote, Retain, Kept, ShowsEdit, NamesLocal, EditShown, DistinctIds, Dedup;
    var hidden := HiddenIds(local, remote);
    var visible := VisibleRemote(remote, priors, hidden);
    VisibleShowsEdit(local, remote, priors, hidden, m);
    RetainShowsEdit(local.messages, visible, hidden, m);
    if Kept(m, hidden) {
      KeptIsShown(local.messages, visible, hidden, m);
      EditShownExactly(local.messages, visible, hidden, m);
      if forall r :: r in remote && r.id == m.id ==> r.role == m.role {
        TakenOverByItsId(local, remote, priors, hidden, m);
        DedupIsPart(visible);
      }
    }
  }

  lemma IdentitiesAreIds(local: Conversation)
    requires DistinctIdentities(local)
    ensures DistinctIds(local.messages)
  {
  }

  lemma OwnTextShows(messages: seq<Message>, m: Message)
    requires DistinctIds(messages) && m in messages
    ensures ShowsEdit(messages, m) && EditShown(messages, m)
  {
    hide DistinctIds;
    forall x | x in messages && x.id == m.id ensures x == m {
      DistinctOwner(messages, x, m);
    }
  }

  // ---- A deletion is never undone -------------------------------------------------------------

  /** Any sequence of deletions; one that fails leaves the conversation as it is. */
  function DeleteAll(c: Conversation, ids: seq<string>): Conversation
    decreases |ids|
  {
    if ids == [] then c
    else
      var r := Delete(c, ids[0]);
      DeleteAll(if r.Ok? then r.value else c, ids[1..])
  }

  lemma {:induction false} TombstonesStay(c: Conversation, ids: seq<string>)
    ensures c.deletedIds <= DeleteAll(c, ids).deletedIds
    ensures DeleteAll(c, ids).status == c.status
    decreases |ids|
  {
    hide CapturedTurns, Tombstones;
    if ids != [] {
      var r := Delete(c, ids[0]);
      TombstonesStay(if r.Ok? then r.value else c, ids[1..]);
    }
  }

  /** Remote transcripts arrive without upstream ids of their own, and their ids carry no outer space. */
  predicate PlainRemote(remote: seq<Message>) {
    forall m :: m in remote ==> m.upstream == "" && Trim(m.id) == m.id
  }

  lemma AdoptedUpstream(m: Message, priors: map<string, Message>)
    requires m.upstream == "" && Trim(m.id) == m.id
    ensures Adopt(m, priors).upstream == m.id
  {
    hide Trim;
  }

  lemma {:induction false} VisibleIsNotHidden(remote: seq<Message>, priors: map<string, Message>, hidden: set<string>)
    requires PlainRemote(remote)
    ensures forall m :: m in VisibleRemote(remote, priors, hidden) ==> Kept(m, hidden)
    decreases |remote|
  {
    hide Adopt, Trim;
    if remote != [] {
      var init, last := remote[..|remote| - 1], remote[|remote| - 1];
      assert last in remote && forall m :: m in init ==> m in remote;
      VisibleIsNotHidden(init, priors, hidden);
      AdoptedUpstream(last, priors);
    }
  }

  lemma {:induction false} EmittedFrom(remote: seq<Message>, local: seq<Message>, remoteIds: set<string>,
        deleted: set<string>)
    ensures forall m :: m in Emit(remote, local, remoteIds, deleted) ==>
      m in remote || (m in local && LocalOnly(m, remoteIds, deleted))
    decreases |remote|
  {
    hide Group, LocalOnly, IdSet;
    if remote != [] {
      var init, last := remote[..|remote| - 1], remote[|remote| - 1];
      assert last in remote && forall m :: m in init ==> m in remote;
      EmittedFrom(init, local, remoteIds, deleted);
      GroupIsLocalOnly(local, remoteIds, deleted, last.id);
    }
  }

  /** Whatever the local messages are paired with, a merge shows no message with a hidden id. */
  lemma MergeHides(local: Conversation, remote: seq<Message>, priors: map<string, Message>)
    requires !Busy(local.status) && local.status != "failed" && remote != [] && PlainRemote(remote)
    ensures forall m :: m in MergedMessages(local, remote, priors) ==> Kept(m, HiddenIds(local, remote))
  {
    hide Group, Emit, HiddenIds, VisibleRemote, IdSet, Busy, PlainRemote;
    var hidden := HiddenIds(local, remote);
    var visible := VisibleRemote(remote, priors, hidden);
    VisibleIsNotHidden(remote, priors, hidden);
    EmittedFrom(visible, local.messages, IdSet(visible), hidden);
    GroupIsLocalOnly(local.messages, IdSet(visible), hidden, "");
  }

  /** After any deletions, no later sync shows a message whose local or upstream id is tombstoned. */
  lemma DeletionSurvivesSync(c: Conversation, ids: seq<string>, remote: seq<Message>, priors: map<string, Message>)
    requires !Busy(c.status) && c.status != "failed" && remote != [] && PlainRemote(remote)
    ensures var d := DeleteAll(c, ids);
      forall m :: m in MergedMessages(d, remote, priors) ==> m.id !in d.deletedIds && m.upstream !in d.deletedIds
  {
    hide MergedMessages, DeleteAll, PlainRemote, DeletedTurnUsers;
    TombstonesStay(c, ids);
    var d := DeleteAll(c, ids);
    MergeHides(d, remote, priors);
    assert forall id :: id in d.deletedIds ==> id in HiddenIds(d, remote);
  }

  lemma {:induction false} RequestedDeletionHappens(c: Conversation, ids: seq<string>, id: string)
    requires !Busy(c.status) && c.status != "deleting"
    requires id in ids && id != "" && Trim(id) == id
    requires exists m :: m in c.messages && m.id == id
    ensures id in DeleteAll(c, ids).deletedIds
    decreases |ids|
  {
    hide CapturedTurns, Trim, Busy;
    var i := IndexOfMessage(c.messages, Trim(ids[0]));
    if i < 0 {
      RequestedDeletionHappens(c, ids[1..], id);
    } else {
      var d := DeleteAt(c, i);
      TombstonesStay(d, ids[1..]);
      if c.messages[i].id == id {
        assert id in d.deletedIds;
      } else {
        var m :| m in c.messages && m.id == id;
        assert m in d.messages;
        RequestedDeletionHappens(d, ids[1..], id);
      }
    }
  }

  // ---- Conversations a merge leaves alone -----------------------------------------------------

  /** No identity, own or upstream, names two messages, and only the last may carry the conversation's message id. */
  predicate DistinctIdentities(c: Conversation) {
    && DistinctIds(c.messages)
    && (forall i, j :: 0 <= i < |c.messages| && 0 <= j < |c.messages| && i != j ==>
          c.messages[i].id != c.messages[j].upstream
          && (c.messages[i].upstream == "" || c.messages[i].upstream != c.messages[j].upstream))
    && (forall i :: 0 <= i < |c.messages| - 1 ==>
          c.messages[i].id != c.messageId && (c.messageId == "" || c.messages[i].upstream != c.messageId))
  }

  predicate ShowsNoTombstone(c: Conversation) {
    "" !in c.deletedIds
    && forall i :: 0 <= i < |c.messages| ==> c.messages[i].id !in c.deletedIds && c.messages[i].upstream !in c.deletedIds
  }

  lemma RemovedAt(ms: seq<Message>, i: nat, rest: seq<Message>)
    requires i < |ms| && rest == ms[..i] + ms[i + 1..]
    ensures |rest| == |ms| - 1
    ensures forall k :: 0 <= k < |rest| ==> rest[k] == if k < i then ms[k] else ms[k + 1]
  {
  }

  lemma DeleteKeepsDistinct(c: Conversation, i: nat)
    requires i < |c.messages| && DistinctIdentities(c)
    ensures DistinctIdentities(DeleteAt(c, i))
  {
    hide CapturedTurns, Tombstones;
    RemovedAt(c.messages, i, DeleteAt(c, i).messages);
  }

  lemma TombstonesAreGone(c: Conversation, i: nat, k: nat)
    requires i < |c.messages| && k < |c.messages| && k != i
    requires c.messages[i].id != "" && DistinctIdentities(c)
    ensures c.messages[k].id !in Tombstones(c, i) && c.messages[k].upstream !in Tombstones(c, i)
  {
    assert c.messages[k].id != c.messages[i].id;
  }

  lemma DeleteKeepsClean(c: Conversation, i: nat)
    requires i < |c.messages| && c.messages[i].id != ""
    requires DistinctIdentities(c) && ShowsNoTombstone(c)
    ensures ShowsNoTombstone(DeleteAt(c, i))
  {
    hide CapturedTurns, DistinctIdentities;
    RemovedAt(c.messages, i, DeleteAt(c, i).messages);
    var d := DeleteAt(c, i);
    forall k | 0 <= k < |d.messages|
      ensures d.messages[k].id !in d.deletedIds && d.messages[k].upstream !in d.deletedIds
    {
      TombstonesAreGone(c, i, if k < i then k else k + 1);
    }
  }

  /** A failed conversation is shown as it is, and it holds nothing that was deleted. */
  lemma {:induction false} DeletionHoldsWhenFailed(c: Conversation, ids: seq<string>, remote: seq<Message>,
        priors: map<string, Message>)
    requires c.status == "failed" && DistinctIdentities(c) && ShowsNoTombstone(c)
    ensures var d := DeleteAll(c, ids);
      MergedMessages(d, remote, priors) == d.messages && ShowsNoTombstone(d)
    decreases |ids|
  {
    hide CapturedTurns, Tombstones, DistinctIdentities, ShowsNoTombstone, Retain, VisibleRemote, HiddenIds, Trim;
    TombstonesStay(c, ids);
    if ids != [] {
      var r := Delete(c, ids[0]);
      if r.Ok? {
        var i := IndexOfMessage(c.messages, Trim(ids[0]));
        DeleteKeepsDistinct(c, i);
        DeleteKeepsClean(c, i);
        DeletionHoldsWhenFailed(r.value, ids[1..], remote, priors);
      } else {
        DeletionHoldsWhenFailed(c, ids[1..], remote, priors);
      }
    }
  }

  // ---- Turns without upstream ids -------------------------------------------------------------

  /** The answer at position i pairs with the user message with the given id, which has no upstream id. */
  predicate PairedTurn(c: Conversation, i: nat, userId: string) {
    i < |c.messages| && LegacyUser(c, i).Some? && LegacyUser(c, i).value.id == userId
  }

  lemma {:induction false} ScanFindsPosition(messages: seq<Message>, i: nat, user: Option<Message>, from: nat)
    returns (p: nat)
    requires i <= from <= |messages|
    requires forall k :: i <= k < from ==> messages[k].role != "assistant"
    requires user.Some? ==> exists k :: i <= k < from && messages[k] == user.value
    requires ScanTurn(messages, i, user).Some?
    ensures p < from && messages[p] == ScanTurn(messages, i, user).value
    ensures forall k :: p <= k < from ==> messages[k].role != "assistant"
  {
    if i == 0 {
      p :| i <= p < from && messages[p] == user.value;
    } else {
      var m := messages[i - 1];
      if m.role == "assistant" {
        p :| i <= p < from && messages[p] == user.value;
      } else if m.role != "user" || m.stepType == "attachment" {
        p := ScanFindsPosition(messages, i - 1, user, from);
      } else {
        p := ScanFindsPosition(messages, i - 1, Some(m), from);
      }
    }
  }

  /** With distinct ids a user message pairs with one answer only. */
  lemma PairIsUnique(c: Conversation, i: nat, j: nat, userId: string)
    requires DistinctIds(c.messages)
    requires PairedTurn(c, i, userId) && PairedTurn(c, j, userId)
    ensures i == j
  {
    hide ScanTurn;
    var p := ScanFindsPosition(c.messages, i, None, i);
    var q := ScanFindsPosition(c.messages, j, None, j);
    assert c.messages[p].id == c.messages[q].id;
  }

  /** The anchor kept for a user: an earlier record if there is one. */
  function KeptAnchor(c: Conversation, i: nat, userId: string): string
    requires i < |c.messages|
  {
    if userId in c.legacyTurns && c.legacyTurns[userId] != "" then c.legacyTurns[userId] else TurnAnchor(c, i)
  }

  lemma {:induction false} CaptureRecordsPair(c: Conversation, i: nat, userId: string, n: nat)
    requires DistinctIds(c.messages) && PairedTurn(c, i, userId) && n <= |c.messages|
    ensures n <= i ==> (userId in CapturedTurns(c, n) <==> userId in c.legacyTurns)
    ensures n <= i && userId in c.legacyTurns ==> CapturedTurns(c, n)[userId] == c.legacyTurns[userId]
    ensures n > i ==> userId in CapturedTurns(c, n) && CapturedTurns(c, n)[userId] == KeptAnchor(c, i, userId)
    decreases n
  {
    hide LegacyUser, TurnAnchor, DistinctIds;
    if n > 0 {
      CaptureRecordsPair(c, i, userId, n - 1);
      if PairedTurn(c, n - 1, userId) {
        PairIsUnique(c, n - 1, i, userId);
      }
    }
  }

  lemma {:induction false} RecordStays(c: Conversation, userId: string, n: nat)
    requires n <= |c.messages| && userId in c.legacyTurns && c.legacyTurns[userId] != ""
    ensures userId in CapturedTurns(c, n) && CapturedTurns(c, n)[userId] == c.legacyTurns[userId]
    decreases n
  {
    hide LegacyUser, TurnAnchor;
    if n > 0 {
      RecordStays(c, userId, n - 1);
    }
  }

  lemma {:induction false} RecordStaysForever(c: Conversation, ids: seq<string>, userId: string)
    requires userId in c.legacyTurns && c.legacyTurns[userId] != ""
    ensures userId in DeleteAll(c, ids).legacyTurns && DeleteAll(c, ids).legacyTurns[userId] == c.legacyTurns[userId]
    decreases |ids|
  {
    hide CapturedTurns, Tombstones;
    if ids != [] {
      var r := Delete(c, ids[0]);
      RecordStays(c, userId, |c.messages|);
      RecordStaysForever(if r.Ok? then r.value else c, ids[1..], userId);
    }
  }

  /** The first deletion that succeeds, of whichever message, records the anchor of every pair there is,
      for good; an anchor recorded before is kept. */
  lemma {:induction false} AnchorRecorded(c: Conversation, ids: seq<string>, i: nat, userId: string)
    requires DistinctIds(c.messages) && PairedTurn(c, i, userId) && KeptAnchor(c, i, userId) != ""
    requires exists id :: id in ids && Delete(c, id).Ok?
    ensures var d := DeleteAll(c, ids);
      userId in d.legacyTurns && d.legacyTurns[userId] == KeptAnchor(c, i, userId)
    decreases |ids|
  {
    hide CapturedTurns, Tombstones, TurnAnchor, DistinctIds, LegacyUser;
    var r := Delete(c, ids[0]);
    if r.Ok? {
      CaptureRecordsPair(c, i, userId, |c.messages|);
      RecordStaysForever(r.value, ids[1..], userId);
    } else {
      AnchorRecorded(c, ids[1..], i, userId);
    }
  }

  lemma {:induction false} TurnUserHidden(c: Conversation, remote: seq<Message>, n: nat, j: nat)
    requires j < n <= |remote| && remote[j].role == "assistant" && remote[j].id in DeletedTurns(c)
    requires PrecedingTurnUser(remote, j).Some?
    ensures PrecedingTurnUser(remote, j).value.id in DeletedTurnUsers(c, remote, n)
    decreases n
  {
    hide PrecedingTurnUser, DeletedTurns;
    if n - 1 > j {
      TurnUserHidden(c, remote, n - 1, j);
    }
  }

  /** A deleted user message whose turn is recorded stays hidden: the remote user step before the recorded
      answer is not shown, if that turn is unambiguous, whenever the record was made. */
  lemma RecordedTurnStaysHidden(d: Conversation, userId: string, remote: seq<Message>, j: nat, priors: map<string, Message>)
    requires !Busy(d.status) && d.status != "failed" && PlainRemote(remote)
    requires userId in d.deletedIds && userId in d.legacyTurns
    requires j < |remote| && remote[j].role == "assistant" && remote[j].id == d.legacyTurns[userId]
    requires PrecedingTurnUser(remote, j).Some?
    ensures var hiddenId := PrecedingTurnUser(remote, j).value.id;
      forall m :: m in MergedMessages(d, remote, priors) ==> m.id != hiddenId && m.upstream != hiddenId
  {
    hide MergedMessages, PrecedingTurnUser, PlainRemote, Busy;
    assert d.legacyTurns[userId] in DeletedTurns(d);
    TurnUserHidden(d, remote, |remote|, j);
    MergeHides(d, remote, priors);
  }

  /** So a deleted user message without an upstream id stays hidden: whichever of the pair was deleted first,
      before or in this sequence, if both turns are unambiguous. */
  lemma DeletedTurnStaysHidden(c: Conversation, ids: seq<string>, i: nat, userId: string,
                               remote: seq<Message>, j: nat, priors: map<string, Message>)
    requires !Busy(c.status) && c.status != "failed" && PlainRemote(remote)
    requires DistinctIds(c.messages) && PairedTurn(c, i, userId) && KeptAnchor(c, i, userId) != ""
    requires userId in DeleteAll(c, ids).deletedIds && exists id :: id in ids && Delete(c, id).Ok?
    requires j < |remote| && remote[j].role == "assistant" && remote[j].id == KeptAnchor(c, i, userId)
    requires PrecedingTurnUser(remote, j).Some?
    ensures var hiddenId := PrecedingTurnUser(remote, j).value.id;
      forall m :: m in MergedMessages(DeleteAll(c, ids), remote, priors) ==> m.id != hiddenId && m.upstream != hiddenId
  {
    hide MergedMessages, DeleteAll, PrecedingTurnUser, KeptAnchor, DistinctIds, PairedTurn, PlainRemote, Busy, Delete;
    TombstonesStay(c, ids);
    AnchorRecorded(c, ids, i, userId);
    RecordedTurnStaysHidden(DeleteAll(c, ids), userId, remote, j, priors);
  }
}
