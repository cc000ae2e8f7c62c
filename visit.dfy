/** What one browser visit holds between reruns of the script
    (`st.session_state`), and the actions of its screens: choosing a mode,
    the moderator's password gate, creating, watching and ending a session,
    and a participant finding a session by PIN and answering it. Each
    action is what one run of the script does after a click; the drawing
    of the page itself is not modelled. */
module Visit {
  import opened Optional
  import opened Text
  import opened Store
  import opened Aggregation
  import opened WordCloud

  /** The three modes of the sidebar's radio button. */
  datatype Mode = Participate | Create | Moderate

  /** A new password must be at least this long. */
  const MinPasswordLength: nat := 6

  /** How a password change ends. */
  datatype PasswordChange =
    | Changed       // "Senha alterada com sucesso"
    | WrongCurrent  // "Senha atual incorreta"
    | Rejected      // the new passwords differ or are too short
    | StoreFailed   // "Erro ao alterar senha"

  /** How a participant's answer ends. */
  datatype Submission =
    | Sent          // "Resposta enviada com sucesso"
    | Blank         // "Por favor, digite uma resposta válida"
    | Failed        // "Erro ao enviar resposta"

  /** What the moderation screen shows. */
  datatype ModeratorScreen =
    | NoActiveSession  // "Nenhuma sessão ativa"
    | SessionNotFound  // "Sessão não encontrada"
    | Live(pin: string, question: string, participants: nat,
           dashboard: Option<Dashboard>,   // nothing while no one has answered
           cloud: Option<seq<Word>>)

  /** What the participant screen shows. */
  datatype ParticipantPage =
    | EnterPin         // "Digite o PIN para começar"
    | InvalidPin       // "PIN inválido"
    | Question(question: string, participants: nat, cloud: Option<seq<Word>>)

  /** A participant's screen for what they typed as PIN: the question of
      the session with that PIN (surrounding whitespace ignored), how many
      answers it has, and the word cloud of those answers. */
  function Participant(db: Database, pinInput: string, lookupFault: bool, readFault: bool): (page: ParticipantPage)
    reads db
    ensures page == EnterPin <==> IsBlank(pinInput)
    ensures page == InvalidPin <==> !IsBlank(pinInput) && db.SessionByPin(Strip(pinInput), lookupFault).None?
    ensures page.Question? ==>
              exists s :: s in db.sessions && s.pin == Strip(pinInput) && page.question == s.question
                          && page.participants == |db.ResponsesOf(s.id, readFault)|
                          && page.cloud == Cloud(db.ResponsesOf(s.id, readFault))
    ensures page.Question? ==> (page.cloud.None? <==> page.participants == 0)
  {
    if IsBlank(pinInput) then EnterPin
    else
      match db.SessionByPin(Strip(pinInput), lookupFault)
      case None => InvalidPin
      case Some(s) =>
        var responses := db.ResponsesOf(s.id, readFault);
        CloudOfAnswers(responses);
        Question(s.question, |responses|, Cloud(responses))
  }

  /** The responses `get_responses` returns are never blank, so the word
      cloud of them is missing only when there are none. */
  lemma CloudOfAnswers(responses: seq<string>)
    requires forall t :: t in responses ==> !IsBlank(t)
    ensures Cloud(responses).None? <==> responses == []
  {
    CloudNoneIffAllBlank(responses);
    if responses != [] {
      assert responses[0] in responses;
    }
  }

  /** A participant sends an answer to the session they found: blank
      answers are turned away before the store is reached; any other is
      stored stripped and is from then on the newest of the session. */
  method SubmitResponse(db: Database, sessionId: string, response: string, responseId: string, fault: bool)
    returns (outcome: Submission)
    requires db.Valid()
    modifies db`responses, db`clock
    ensures db.Valid()
    ensures outcome == Blank <==> IsBlank(response)
    ensures outcome == Sent <==> !IsBlank(response) && !fault && responseId !in RowIds(old(db.responses))
    ensures outcome == Sent ==>
              && db.responses == old(db.responses) + [Row(responseId, sessionId, Strip(response), old(db.clock))]
              && db.ResponsesOf(sessionId, false) == [Strip(response)] + old(db.ResponsesOf(sessionId, false))
    ensures outcome != Sent ==> db.responses == old(db.responses) && db.clock == old(db.clock)
  {
    var text := Strip(response);
    if text == [] {
      return Blank;
    }
    StripIdempotent(response);
    var ok := db.AddResponse(sessionId, text, responseId, fault);
    if ok {
      ResponsesAfterInsert(old(db.responses), Row(responseId, sessionId, text, old(db.clock)), sessionId);
      outcome := Sent;
    } else {
      outcome := Failed;
    }
  }

  class VisitState {
    var mode: Mode
    var currentSession: Option<string>
    var currentPin: Option<string>
    var autoRefresh: bool
    var authenticated: bool
    var showChangePassword: bool
    var participantPin: string

    /** A session is held together with its PIN, or neither is. */
    ghost predicate Valid()
      reads this
    {
      currentSession.Some? <==> currentPin.Some?
    }

    /** The first run of a visit: the defaults, and the PIN from the
        link's `?pin=` when there is one (`queryPin` is empty when not). */
    constructor Start(queryPin: string)
      ensures Valid()
      ensures mode == Participate && currentSession == None && currentPin == None
      ensures autoRefresh && !authenticated && !showChangePassword
      ensures participantPin == queryPin
    {
      mode := Participate;
      currentSession, currentPin := None, None;
      autoRefresh, authenticated, showChangePassword := true, false, false;
      participantPin := queryPin;
    }

    /** A later run: a `?pin=` in the link replaces the PIN held; an absent
        or empty one leaves it. */
    method ApplyQueryPin(queryPin: string)
      modifies this`participantPin
      ensures participantPin == if queryPin != [] then queryPin else old(participantPin)
    {
      if queryPin != [] {
        participantPin := queryPin;
      }
    }

    /** Every run sets the mode from the radio button, whatever an action
        of the previous run set it to; in moderation mode the auto-refresh
        check box is read as well. */
    method SelectMode(choice: Mode, autoRefreshBox: bool)
      modifies this`mode, this`autoRefresh
      ensures mode == choice
      ensures autoRefresh == if choice == Moderate then autoRefreshBox else old(autoRefresh)
    {
      mode := choice;
      if choice == Moderate {
        autoRefresh := autoRefreshBox;
      }
    }

    /** The password form: the visit is let in exactly when the password
        typed equals the moderator password, and stays in from then on. */
    method Authenticate(db: Database, input: string, fault: bool) returns (ok: bool)
      modifies this`authenticated
      ensures ok <==> input == db.ModeratorPassword(fault)
      ensures authenticated == (old(authenticated) || ok)
    {
      ok := input == db.ModeratorPassword(fault);
      if ok {
        authenticated := true;
      }
    }

    /** The "change password" button shows or hides the form. */
    method TogglePasswordForm()
      requires authenticated
      modifies this`showChangePassword
      ensures showChangePassword == !old(showChangePassword)
    {
      showChangePassword := !showChangePassword;
    }

    /** The change-password form. The stored password is replaced only when
        the current password typed is the moderator password, the new one
        equals its confirmation and has at least six characters, and the
        store does not fail; otherwise the config table is unchanged. On
        success the form closes and, where the password row exists, the new
        password is the one in force. */
    method ChangePassword(db: Database, current: string, newPassword: string, confirm: string,
                          readFault: bool, writeFault: bool)
      returns (outcome: PasswordChange)
      requires db.Valid() && authenticated && showChangePassword
      modifies this`showChangePassword, db`config
      ensures db.Valid()
      ensures outcome == WrongCurrent <==> current != old(db.ModeratorPassword(readFault))
      ensures outcome == Rejected <==>
                current == old(db.ModeratorPassword(readFault))
                && !(newPassword == confirm && |newPassword| >= MinPasswordLength)
      ensures outcome == Changed <==>
                current == old(db.ModeratorPassword(readFault))
                && newPassword == confirm && |newPassword| >= MinPasswordLength && !writeFault
      ensures db.config == if outcome == Changed then Updated(old(db.config), newPassword) else old(db.config)
      ensures showChangePassword == (outcome != Changed)
      ensures outcome == Changed && PasswordKey in old(db.config) ==> db.ModeratorPassword(false) == newPassword
    {
      if current != db.ModeratorPassword(readFault) {
        return WrongCurrent;
      }
      if !(newPassword == confirm && |newPassword| >= MinPasswordLength) {
        return Rejected;
      }
      var ok := db.UpdateModeratorPassword(newPassword, writeFault);
      if ok {
        UpdatedPassword(old(db.config), newPassword);
        showChangePassword := false;
        outcome := Changed;
      } else {
        outcome := StoreFailed;
      }
    }

    /** The create-session form: a question that is not blank is stored
        stripped as a new session, which the visit then holds and moderates;
        a blank one, or a failed insert, changes nothing. */
    method CreateSession(db: Database, question: string, first: nat, second: nat, sessionId: string, fault: bool)
      returns (result: Option<(string, string)>)
      requires Valid() && db.Valid() && authenticated
      modifies this`currentSession, this`currentPin, this`mode, db`sessions, db`clock
      ensures Valid() && db.Valid()
      ensures result.Some? <==>
                && !IsBlank(question) && !fault
                && ChosenPin(Pins(old(db.sessions)), first, second) !in Pins(old(db.sessions))
                && sessionId !in SessionIds(old(db.sessions))
      ensures result.Some? ==>
                && result.value == (sessionId, ChosenPin(Pins(old(db.sessions)), first, second))
                && currentSession == Some(sessionId) && currentPin == Some(result.value.1) && mode == Moderate
                && db.sessions == old(db.sessions) + [Session(sessionId, result.value.1, Strip(question), old(db.clock))]
                && db.clock == old(db.clock) + 1
                && db.SessionByPin(result.value.1, false) == Some(Session(sessionId, result.value.1, Strip(question), old(db.clock)))
      ensures result.None? ==>
                && currentSession == old(currentSession) && currentPin == old(currentPin) && mode == old(mode)
                && db.sessions == old(db.sessions) && db.clock == old(db.clock)
    {
      var text := Strip(question);
      if text == [] {
        return None;
      }
      result := db.CreateSession(text, first, second, sessionId, fault);
      if result.Some? {
        Hold(result.value.0, result.value.1);
      }
    }

    /** The visit takes over a session it has just created. */
    method Hold(sessionId: string, pin: string)
      modifies this`currentSession, this`currentPin, this`mode
      ensures Valid()
      ensures currentSession == Some(sessionId) && currentPin == Some(pin) && mode == Moderate
    {
      currentSession, currentPin, mode := Some(sessionId), Some(pin), Moderate;
    }

    /** "Create new session" on a moderation screen without a session. */
    method OpenCreate()
      requires authenticated && mode == Moderate && currentSession.None?
      modifies this`mode
      ensures mode == Create
    {
      mode := Create;
    }

    /** "End session": the visit lets go of the session and its PIN and
        goes back to creating; the session and its responses stay stored. */
    method EndSession()
      requires Valid() && authenticated && mode == Moderate && currentSession.Some?
      modifies this`currentSession, this`currentPin, this`mode
      ensures Valid()
      ensures currentSession == None && currentPin == None && mode == Create
    {
      currentSession, currentPin, mode := None, None, Create;
    }

    /** One render of the moderation screen. A session that can no longer
        be found by its PIN (or whose lookup fails) is let go of; otherwise
        the screen shows its PIN, question and answers: how many there are,
        the dashboard and the word cloud, the last two only once someone has
        answered. The store is only read. */
    method RenderModeration(db: Database, lookupFault: bool, readFault: bool) returns (screen: ModeratorScreen)
      requires Valid() && authenticated && mode == Moderate
      modifies this`currentSession, this`currentPin
      ensures Valid()
      ensures old(currentSession).None? ==> screen == NoActiveSession && currentSession == None && currentPin == None
      ensures old(currentSession).Some? && db.SessionByPin(old(currentPin).value, lookupFault).None? ==>
                screen == SessionNotFound && currentSession == None && currentPin == None
      ensures old(currentSession).Some? && db.SessionByPin(old(currentPin).value, lookupFault).Some? ==>
                screen.Live? && screen.question == db.SessionByPin(old(currentPin).value, lookupFault).value.question
      ensures screen.Live? ==>
                && currentSession == old(currentSession) && currentPin == old(currentPin)
                && screen.pin == currentPin.value
                && (exists s :: s in db.sessions && s.pin == screen.pin && s.question == screen.question)
                && screen.participants == |db.ResponsesOf(currentSession.value, readFault)|
                && (screen.dashboard.None? <==> screen.participants == 0)
                && (screen.dashboard.Some? ==> screen.dashboard.value == Summarize(db.ResponsesOf(currentSession.value, readFault)))
                && screen.cloud == Cloud(db.ResponsesOf(currentSession.value, readFault))
                && (screen.cloud.None? <==> screen.participants == 0)
      ensures !screen.Live? ==> currentSession == None && currentPin == None
    {
      if currentSession.None? {
        return NoActiveSession;
      }
      var found := db.SessionByPin(currentPin.value, lookupFault);
      if found.None? {
        currentSession, currentPin := None, None;
        return SessionNotFound;
      }
      var responses := db.ResponsesOf(currentSession.value, readFault);
      CloudOfAnswers(responses);
      var dashboard := if responses == [] then None else Some(Summarize(responses));
      screen := Live(currentPin.value, found.value.question, |responses|, dashboard, Cloud(responses));
    }
  }
}
