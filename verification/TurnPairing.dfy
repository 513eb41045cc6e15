/** Which user step belongs to an answer, and what follows for a remote user step without a local id
    (internal/app/admin_conversations.go:116-183). */
module TurnPairing {
  import opened Wrappers
  import opened Text
  import opened TranscriptMerge
  import opened MessageDeletion

  predicate TextStep(m: Message) {
    m.role == "user" && m.stepType != "attachment"
  }

  /** Position p holds the one text step of the user in the turn the answer at position i ends: between them
      there is no answer and only text steps without an id, and before p, back to the last answer, none at all. */
  predicate IsTurnUser(messages: seq<Message>, i: nat, p: nat)
    requires i <= |messages|
  {
    && p < i && TextStep(messages[p]) && messages[p].id != ""
    && (forall k :: p < k < i ==> messages[k].role != "assistant" && (TextStep(messages[k]) ==> messages[k].id == ""))
    && (forall k :: 0 <= k < p && TextStep(messages[k]) ==> exists a :: k < a < p && messages[a].role == "assistant")
  }

  /** No answer and only blank text steps from position i up to the answer at position top. */
  predicate NothingSince(messages: seq<Message>, i: nat, top: nat)
    requires i <= top <= |messages|
  {
    forall k :: i <= k < top ==> messages[k].role != "assistant" && (TextStep(messages[k]) ==> messages[k].id == "")
  }

  /** No text step between the last answer before position i and i. */
  predicate FirstInTurn(messages: seq<Message>, i: nat)
    requires i <= |messages|
  {
    forall k :: 0 <= k < i && TextStep(messages[k]) ==> exists a :: k < a < i && messages[a].role == "assistant"
  }

  lemma FirstBefore(messages: seq<Message>, i: nat)
    requires 0 < i <= |messages|
    ensures FirstInTurn(messages, i) <==>
      messages[i - 1].role == "assistant" || (!TextStep(messages[i - 1]) && FirstInTurn(messages, i - 1))
  {
    hide TextStep;
    assert "assistant" != "user" by {
      assert |"assistant"| != |"user"|;
    }
    if messages[i - 1].role == "assistant" {
      AnswersAreNoSteps(messages[i - 1]);
    } else if FirstInTurn(messages, i) && !TextStep(messages[i - 1]) {
      forall k | 0 <= k < i - 1 && TextStep(messages[k]) ensures exists a :: k < a < i - 1 && messages[a].role == "assistant" {
        var a :| k < a < i && messages[a].role == "assistant";
      }
    }
  }

  lemma AnswersAreNoSteps(m: Message)
    requires m.role == "assistant"
    ensures !TextStep(m)
  {
    assert |"assistant"| != |"user"|;
  }

  /** Scanning on with the user step of position p found: it stands exactly if it is the first of its turn. */
  lemma {:induction false} ScanWithUser(messages: seq<Message>, i: nat, user: Message)
    requires i <= |messages| && user.id != ""
    ensures ScanTurn(messages, i, Some(user)) == if FirstInTurn(messages, i) then Some(user) else None
    decreases i
  {
    if i > 0 {
      hide FirstInTurn;
      FirstBefore(messages, i);
      if messages[i - 1].role == "assistant" {
        AnswersAreNoSteps(messages[i - 1]);
      } else if !TextStep(messages[i - 1]) {
        ScanWithUser(messages, i - 1, user);
      }
    }
  }

  /** What a scan of the rest of the turn finds when only blank text steps have been met so far. */
  lemma {:induction false} ScanWithout(messages: seq<Message>, i: nat, top: nat, user: Option<Message>, p: nat)
    requires i <= top <= |messages| && NothingSince(messages, i, top) && (user.Some? ==> user.value.id == "")
    ensures var r := ScanTurn(messages, i, user);
      IsTurnUser(messages, top, p) && p < i ==> r == Some(messages[p])
    ensures var r := ScanTurn(messages, i, user);
      r.Some? && r.value.id != "" ==> exists q :: 0 <= q < i && IsTurnUser(messages, top, q) && messages[q] == r.value
    decreases i
  {
    hide IsTurnUser;
    if i == 0 {
    } else if messages[i - 1].role == "assistant" {
      AnswersAreNoSteps(messages[i - 1]);
      NotBeyondAnswer(messages, i, top, p);
    } else if !TextStep(messages[i - 1]) {
      ScanWithout(messages, i - 1, top, user, p);
      NotAStep(messages, i, top, p);
    } else if messages[i - 1].id == "" {
      ScanWithout(messages, i - 1, top, Some(messages[i - 1]), p);
      NotAStep(messages, i, top, p);
    } else {
      ScanWithUser(messages, i - 1, messages[i - 1]);
      FoundStep(messages, i, top, p);
    }
  }

  lemma NotBeyondAnswer(messages: seq<Message>, i: nat, top: nat, p: nat)
    requires 0 < i <= top <= |messages| && messages[i - 1].role == "assistant"
    ensures p < i ==> !IsTurnUser(messages, top, p)
  {
    AnswersAreNoSteps(messages[i - 1]);
    hide TextStep;
  }

  lemma NotAStep(messages: seq<Message>, i: nat, top: nat, p: nat)
    requires 0 < i <= top <= |messages| && (!TextStep(messages[i - 1]) || messages[i - 1].id == "")
    ensures p == i - 1 ==> !IsTurnUser(messages, top, p)
  {
    hide TextStep;
  }

  lemma FoundStep(messages: seq<Message>, i: nat, top: nat, p: nat)
    requires 0 < i <= top <= |messages| && NothingSince(messages, i, top)
    requires TextStep(messages[i - 1]) && messages[i - 1].id != ""
    ensures IsTurnUser(messages, top, i - 1) <==> FirstInTurn(messages, i - 1)
    ensures p < i - 1 ==> !IsTurnUser(messages, top, p)
  {
    hide TextStep;
  }

  /** The user step of the turn an answer ends is the one the scan finds; without exactly one it finds none. */
  lemma TurnUserExactly(messages: seq<Message>, i: nat, p: nat)
    requires i <= |messages|
    ensures IsTurnUser(messages, i, p) ==> PrecedingTurnUser(messages, i) == Some(messages[p])
    ensures PrecedingTurnUser(messages, i).Some? ==>
      exists q :: 0 <= q < i && IsTurnUser(messages, i, q) && messages[q] == PrecedingTurnUser(messages, i).value
  {
    hide IsTurnUser;
    ScanWithout(messages, i, i, None, p);
    TurnUserNamed(messages, i, p);
  }

  lemma TurnUserNamed(messages: seq<Message>, i: nat, p: nat)
    requires i <= |messages|
    ensures IsTurnUser(messages, i, p) ==> p < i && messages[p].id != ""
  {
  }

  // ---- A user step without an upstream id -----------------------------------------------------

  predicate Carries(m: Message, id: string) {
    id != "" && (m.id == id || m.upstream == id)
  }

  lemma {:induction false} AnswerIsFound(local: Conversation, k: nat, n: nat, id: string)
    requires DistinctIdentities(local) && k < |local.messages| && n <= |local.messages|
    requires local.messages[k].role == "assistant" && Carries(local.messages[k], id)
    ensures k < n ==> id in AnswersById(local, n) && AnswersById(local, n)[id] == k
    decreases n
  {
    if n > 0 {
      AnswerIsFound(local, k, n - 1, id);
    }
  }

  lemma LocalAnswerIsFound(local: Conversation, k: nat, id: string)
    requires DistinctIdentities(local) && k < |local.messages|
    requires local.messages[k].role == "assistant" && Carries(local.messages[k], id)
    ensures id in LocalAnswers(local) && LocalAnswers(local)[id] == k
  {
    hide ContainsTrimmed, AnswersById;
    AnswerIsFound(local, k, |local.messages|, id);
  }

  predicate NamedNowhere(local: Conversation, id: string) {
    id != local.messageId && forall m :: m in local.messages ==> !Carries(m, id)
  }

  lemma NotNamed(local: Conversation, id: string)
    requires NamedNowhere(local, id)
    ensures id !in LocalById(local)
  {
    hide NamedById, ContainsTrimmed;
    if id in NamedById(local, |local.messages|) {
      NamedAreNamed(local, |local.messages|, id);
    }
  }

  /** A user step belongs to the turn of one answer only. */
  lemma OneAnswerPerUser(messages: seq<Message>, i: nat, j: nat, p: nat)
    requires i < |messages| && j < |messages| && messages[i].role == "assistant" && messages[j].role == "assistant"
    requires IsTurnUser(messages, i, p) && IsTurnUser(messages, j, p)
    ensures i == j
  {
    hide TextStep;
  }

  lemma {:induction false} PairedOnce(local: Conversation, remote: seq<Message>, users: map<string, Message>, j: nat,
                                      q: nat, n: nat)
    requires DistinctIds(remote) && j < |remote| && n <= |remote| && remote[j].role == "assistant" && IsTurnUser(remote, j, q)
    requires remote[q].id !in LocalById(local)
    requires LocalTurnUser(local, users, remote[j].id).Some? && LocalTurnUser(local, users, remote[j].id).value.upstream == ""
    ensures n <= j ==> remote[q].id !in Paired(local, remote, users, n)
    ensures n > j ==>
      remote[q].id in Paired(local, remote, users, n)
      && Paired(local, remote, users, n)[remote[q].id] == LocalTurnUser(local, users, remote[j].id).value
    decreases n
  {
    hide LocalById, LocalTurnUser, PrecedingTurnUser, IsTurnUser;
    if n > 0 {
      PairedOnce(local, remote, users, j, q, n - 1);
      TurnUserExactly(remote, n - 1, q);
      if PrecedingTurnUser(remote, n - 1).Some? && remote[n - 1].role == "assistant" && n - 1 != j {
        var p :| 0 <= p < n - 1 && IsTurnUser(remote, n - 1, p) && remote[p] == PrecedingTurnUser(remote, n - 1).value;
        TurnUserIsBefore(remote, j, q);
        if p == q {
          OneAnswerPerUser(remote, n - 1, j, q);
        }
        assert remote[p].id != remote[q].id;
      }
    }
  }

  lemma TurnUserIsBefore(messages: seq<Message>, i: nat, p: nat)
    requires i <= |messages| && IsTurnUser(messages, i, p)
    ensures p < i && messages[p].role == "user"
  {
  }

  /** A user step recorded for an answer that is no longer there is found through the record, if no other user step
      is recorded for that answer. */
  lemma RecordedUserIsFound(local: Conversation, users: map<string, Message>, userId: string, answer: string)
    requires AreLegacyUsers(local, users) && answer !in LocalAnswers(local)
    requires userId in local.legacyTurns && local.legacyTurns[userId] == answer
    requires forall u :: u in local.legacyTurns && local.legacyTurns[u] == answer ==> u == userId
    requires userId in LocalById(local) && LocalById(local)[userId].role == "user"
    ensures LocalTurnUser(local, users, answer) == Some(LocalById(local)[userId])
  {
    hide LocalById, LocalAnswers;
    assert RecordedFor(local, userId, local.legacyTurns[userId]);
    var u :| RecordedFor(local, u, answer) && users[answer] == LocalById(local)[u];
  }

  /** A local question without an upstream id is recognised in the remote transcript: the question of the turn whose
      answer both sides have is shown under the local id, unless its own id names another local message. */
  lemma QuestionIsRecognised(local: Conversation, remote: seq<Message>, priors: map<string, Message>,
                             k: nat, p: nat, j: nat, q: nat)
    requires IsPairing(local, remote, priors) && DistinctIdentities(local) && DistinctIds(remote)
    requires k < |local.messages| && local.messages[k].role == "assistant" && IsTurnUser(local.messages, k, p)
    requires local.messages[p].upstream == ""
    requires j < |remote| && remote[j].role == "assistant" && Carries(local.messages[k], remote[j].id)
    requires IsTurnUser(remote, j, q) && NamedNowhere(local, remote[q].id)
    ensures remote[q].id in priors && priors[remote[q].id] == local.messages[p]
    ensures Adopt(remote[q], priors).id == local.messages[p].id
  {
    hide LocalById, LocalAnswers, IsTurnUser, PrecedingTurnUser, DistinctIdentities, NamedNowhere, Carries, Paired,
      AreLegacyUsers, FirstNonEmpty, DistinctIds;
    var users :| AreLegacyUsers(local, users) && priors == Paired(local, remote, users, |remote|);
    LocalAnswerIsFound(local, k, remote[j].id);
    TurnUserExactly(local.messages, k, p);
    TurnUserIsBefore(local.messages, k, p);
    TurnUserIsBefore(remote, j, q);
    NotNamed(local, remote[q].id);
    PairedOnce(local, remote, users, j, q, |remote|);
  }

  // ---- What a remote message takes over -------------------------------------------------------

  /** A remote message paired with a local one of its role is shown under the local id, with what only the local
      one knows: its edit, that it was cut short, attachments the remote one lacks, and the model asked for. Any
      other remote message is shown as it is, with its own id as the upstream one if it has none. */
  lemma AdoptOutcome(m: Message, priors: map<string, Message>)
    ensures var x := Adopt(m, priors);
      if m.id in priors && priors[m.id].role == m.role then
        var p := priors[m.id];
        && x.id == p.id && x.upstream == m.id && x.role == m.role && x.stepType == m.stepType && x.status == m.status
        && x.content == (if p.editedAt.Some? then p.content else m.content)
        && x.editedAt == (if p.editedAt.Some? then p.editedAt else m.editedAt)
        && (x.truncated <==> m.truncated || p.truncated)
        && x.attachments == (if |m.attachments| > 0 then m.attachments else p.attachments)
        && x.requestedModel == (if Trim(p.requestedModel) != "" then Trim(p.requestedModel) else Trim(m.requestedModel))
      else x == m.(upstream := if Trim(m.upstream) != "" then Trim(m.upstream) else Trim(m.id))
  {
    hide Trim;
  }

  /** A blank id is contained nowhere; any other is compared without its outer space. */
  lemma ContainedExactly(values: seq<string>, target: string)
    ensures ContainsTrimmed(values, target) <==> Trim(target) != "" && exists i :: 0 <= i < |values| && Trim(values[i]) == Trim(target)
  {
    hide Trim;
  }
}
