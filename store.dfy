/** The three tables of the app's database (`sessions`, `responses`,
    `config`) and the functions of `app.py` that read and write them. The
    tables are fields of one object that the write operations update in
    place. Every operation takes `fault`: whether the database raised an
    error, which the source catches and turns into a failure value. A
    failure is taken to happen before anything is written. Each
    insert is stamped from a clock that only moves forward, standing in for
    `datetime.now()`; the random identifiers of `uuid.uuid4()` are inputs. */
module Store {
  import opened Optional
  import opened Text
  import opened Seqs

  /** The key of the moderator password in the `config` table. */
  const PasswordKey: string := "moderator_password"
  /** The password seeded on first start and assumed when none is stored. */
  const DefaultPassword: string := "admin123"
  /** A PIN is the first this many decimal digits of a random number. */
  const PinLength: nat := 6

  /** A row of `sessions`. */
  datatype Session = Session(id: string, pin: string, question: string, createdAt: nat)

  /** A row of `responses`. */
  datatype Row = Row(id: string, sessionId: string, text: string, createdAt: nat)

  // ---------------------------------------------------------------------
  // PINs: `str(n)[:6]`

  predicate IsDigit(c: char)
  {
    '0' <= c <= '9'
  }

  function DigitChar(d: nat): char
    requires d < 10
  {
    ('0' as int + d) as char
  }

  /** `str(n)`: the decimal digits of `n`, without leading zeros. */
  function Decimal(n: nat): (s: string)
    ensures |s| >= 1
    ensures forall k :: 0 <= k < |s| ==> IsDigit(s[k])
    ensures n >= 10 ==> s[0] != '0'
  {
    if n < 10 then [DigitChar(n)] else Decimal(n / 10) + [DigitChar(n % 10)]
  }

  /** `int(s)` for a string of decimal digits. */
  function Value(s: string): nat
    requires forall k :: 0 <= k < |s| ==> IsDigit(s[k])
  {
    if s == [] then 0
    else
      assert IsDigit(s[|s| - 1]);
      Value(s[..|s| - 1]) * 10 + (s[|s| - 1] as int - '0' as int)
  }

  /** `str` and `int` are inverse: reading back the digits of `n` gives `n`. */
  lemma {:induction false} DecimalValue(n: nat)
    ensures Value(Decimal(n)) == n
    decreases n
  {
    var s := Decimal(n);
    if n >= 10 {
      DecimalValue(n / 10);
      assert s[..|s| - 1] == Decimal(n / 10);
    }
  }

  function Pow10(k: nat): nat
  {
    if k == 0 then 1 else 10 * Pow10(k - 1)
  }

  /** A number of at least `10^k` has more than `k` digits. */
  lemma {:induction false} DecimalLength(n: nat, k: nat)
    requires n >= Pow10(k)
    ensures |Decimal(n)| > k
    decreases k
  {
    if k > 0 {
      DecimalLength(n / 10, k - 1);
    }
  }

  /** The PIN made from `n`: `str(n)[:6]`. */
  function Pin(n: nat): (pin: string)
    ensures 1 <= |pin| <= PinLength
    ensures forall k :: 0 <= k < |pin| ==> IsDigit(pin[k])
    ensures |pin| <= |Decimal(n)| && pin == Decimal(n)[..|pin|]
  {
    var s := Decimal(n);
    if |s| <= PinLength then s else s[..PinLength]
  }

  /** A number of at least 100000 makes a PIN of exactly six digits, the
      first not a zero. `uuid4().int` is always that large: its version
      field alone puts it at or above 2^78. */
  lemma PinOfLargeNumber(n: nat)
    requires n >= 100000
    ensures |Pin(n)| == PinLength
    ensures Pin(n)[0] != '0'
  {
    assert Pow10(5) == 100000;
    DecimalLength(n, 5);
  }

  /** The PIN a new session gets: the first candidate, or the second when
      the first is already taken. The second is not checked. */
  function ChosenPin(pins: set<string>, first: nat, second: nat): string
  {
    if Pin(first) in pins then Pin(second) else Pin(first)
  }

  // ---------------------------------------------------------------------
  // The config table

  /** `get_moderator_password()` on a config table that could be read:
      the stored value, or the default when there is no row. */
  function StoredPassword(config: map<string, string>): string
  {
    if PasswordKey in config then config[PasswordKey] else DefaultPassword
  }

  /** The config table after `init_db`: the default password is inserted
      only when no password row exists. */
  function Seeded(config: map<string, string>): (r: map<string, string>)
    ensures PasswordKey in r
    ensures forall k :: k in config ==> k in r && (k == PasswordKey || r[k] == config[k])
  {
    if PasswordKey in config then config else config[PasswordKey := DefaultPassword]
  }

  /** `init_db` is idempotent, and seeding never changes which password
      is in force: the default stood for a missing row already. */
  lemma SeedIdempotent(config: map<string, string>)
    ensures Seeded(Seeded(config)) == Seeded(config)
    ensures StoredPassword(Seeded(config)) == StoredPassword(config)
    ensures PasswordKey in config ==> Seeded(config) == config
  {
  }

  /** The config table after `UPDATE config SET value = new WHERE key =
      'moderator_password'`: no row is touched when the row is missing. */
  function Updated(config: map<string, string>, newPassword: string): map<string, string>
  {
    if PasswordKey in config then config[PasswordKey := newPassword] else config
  }

  /** After the update the new password is in force, provided the
      password row existed; without that row the update changes nothing
      and the default stays in force. */
  lemma UpdatedPassword(config: map<string, string>, newPassword: string)
    ensures PasswordKey in config ==> StoredPassword(Updated(config, newPassword)) == newPassword
    ensures PasswordKey !in config ==> StoredPassword(Updated(config, newPassword)) == DefaultPassword
    ensures forall k :: k != PasswordKey ==> (k in Updated(config, newPassword) <==> k in config)
  {
  }

  // ---------------------------------------------------------------------
  // Reading the sessions table

  /** `SELECT ... FROM sessions WHERE pin = ?` then `fetchone()`: the first
      session with that PIN, or nothing. */
  function FindPin(sessions: seq<Session>, pin: string): (r: Option<Session>)
    ensures r.Some? ==> r.value in sessions && r.value.pin == pin
    ensures r.None? <==> forall i :: 0 <= i < |sessions| ==> sessions[i].pin != pin
  {
    if sessions == [] then None
    else if sessions[0].pin == pin then Some(sessions[0])
    else
      var r := FindPin(sessions[1..], pin);
      assert forall i :: 1 <= i < |sessions| ==> sessions[i] == sessions[1..][i - 1];
      r
  }

  function Pins(sessions: seq<Session>): set<string>
  {
    set s | s in sessions :: s.pin
  }

  function SessionIds(sessions: seq<Session>): set<string>
  {
    set s | s in sessions :: s.id
  }

  /** The session appended last is the one its PIN now finds, when no
      earlier session had that PIN. */
  lemma {:induction false} FindAppended(sessions: seq<Session>, s: Session)
    requires s.pin !in Pins(sessions)
    ensures FindPin(sessions + [s], s.pin) == Some(s)
    decreases |sessions|
  {
    if sessions == [] {
      assert sessions + [s] == [s];
    } else {
      assert sessions[0] in sessions;
      assert (sessions + [s])[1..] == sessions[1..] + [s];
      assert Pins(sessions[1..]) <= Pins(sessions) by {
        forall x | x in sessions[1..] ensures x in sessions { }
      }
      FindAppended(sessions[1..], s);
    }
  }

  // ---------------------------------------------------------------------
  // Reading the responses table

  /** `WHERE session_id = ?`: the rows of one session, in table order. */
  function OfSession(rows: seq<Row>, sessionId: string): (r: seq<Row>)
    ensures forall x :: x in r <==> x in rows && x.sessionId == sessionId
    ensures |r| <= |rows|
  {
    if rows == [] then []
    else
      var last := rows[|rows| - 1];
      assert rows == rows[..|rows| - 1] + [last];
      OfSession(rows[..|rows| - 1], sessionId) + (if last.sessionId == sessionId then [last] else [])
  }

  lemma OfSessionAppend(rows: seq<Row>, row: Row, sessionId: string)
    ensures OfSession(rows + [row], sessionId) ==
      OfSession(rows, sessionId) + (if row.sessionId == sessionId then [row] else [])
  {
    assert (rows + [row])[..|rows|] == rows;
  }

  /** Rows in insertion order: each stamped later than the one before. */
  predicate Chronological(rows: seq<Row>)
  {
    forall i, j :: 0 <= i < j < |rows| ==> rows[i].createdAt < rows[j].createdAt
  }

  /** `ORDER BY created_at DESC`: each row stamped later than the next. */
  predicate NewestFirst(rows: seq<Row>)
  {
    forall i, j :: 0 <= i < j < |rows| ==> rows[i].createdAt > rows[j].createdAt
  }

  /** Picking out the rows of one session keeps them in insertion order. */
  lemma {:induction false} OfSessionChronological(rows: seq<Row>, sessionId: string)
    requires Chronological(rows)
    ensures Chronological(OfSession(rows, sessionId))
    decreases |rows|
  {
    if rows != [] {
      var pre := rows[..|rows| - 1];
      var last := rows[|rows| - 1];
      OfSessionChronological(pre, sessionId);
      OfSessionAppend(pre, last, sessionId);
      assert pre + [last] == rows;
      if last.sessionId == sessionId {
        EarlierThanLast(rows);
        ChronologicalSnoc(OfSession(pre, sessionId), last);
      } else {
        assert OfSession(pre, sessionId) + [] == OfSession(pre, sessionId);
      }
    }
  }

  /** Every row but the last of a chronological table is older than it. */
  lemma EarlierThanLast(rows: seq<Row>)
    requires Chronological(rows) && rows != []
    ensures forall x :: x in rows[..|rows| - 1] ==> x.createdAt < rows[|rows| - 1].createdAt
  {
    forall x | x in rows[..|rows| - 1] ensures x.createdAt < rows[|rows| - 1].createdAt {
      var i :| 0 <= i < |rows| - 1 && rows[..|rows| - 1][i] == x;
      assert rows[i] == x;
    }
  }

  lemma ChronologicalSnoc(rows: seq<Row>, row: Row)
    requires Chronological(rows)
    requires forall x :: x in rows ==> x.createdAt < row.createdAt
    ensures Chronological(rows + [row])
  {
    var all := rows + [row];
    forall i, j | 0 <= i < j < |all| ensures all[i].createdAt < all[j].createdAt {
      if j == |rows| {
        assert all[i] in rows;
      }
    }
  }

  function Reverse(rows: seq<Row>): (r: seq<Row>)
    ensures |r| == |rows|
    ensures forall i :: 0 <= i < |rows| ==> r[i] == rows[|rows| - 1 - i]
  {
    if rows == [] then [] else [rows[|rows| - 1]] + Reverse(rows[..|rows| - 1])
  }

  lemma ReverseAppend(rows: seq<Row>, row: Row)
    ensures Reverse(rows + [row]) == [row] + Reverse(rows)
  {
    assert (rows + [row])[..|rows|] == rows;
  }

  lemma {:induction false} ReverseMultiset(rows: seq<Row>)
    ensures multiset(Reverse(rows)) == multiset(rows)
    decreases |rows|
  {
    if rows != [] {
      var pre := rows[..|rows| - 1];
      assert rows == pre + [rows[|rows| - 1]];
      ReverseMultiset(pre);
    }
  }

  /** On a table whose rows were stamped in insertion order, reading the
      rows of a session backwards is `ORDER BY created_at DESC`: the same
      rows, newest first. */
  lemma ReverseIsNewestFirst(rows: seq<Row>, sessionId: string)
    requires Chronological(rows)
    ensures NewestFirst(Reverse(OfSession(rows, sessionId)))
    ensures multiset(Reverse(OfSession(rows, sessionId))) == multiset(OfSession(rows, sessionId))
  {
    OfSessionChronological(rows, sessionId);
    ReverseMultiset(OfSession(rows, sessionId));
  }

  /** `[r[0] for r in rows if r[0] and r[0].strip()]`: the texts that
      are not blank, in order. */
  function Kept(rows: seq<Row>): (texts: seq<string>)
    ensures |texts| <= |rows|
    ensures forall t :: t in texts ==> !IsBlank(t)
  {
    if rows == [] then []
    else (if !IsBlank(rows[0].text) then [rows[0].text] else []) + Kept(rows[1..])
  }

  lemma KeptCons(row: Row, rows: seq<Row>)
    ensures Kept([row] + rows) == (if !IsBlank(row.text) then [row.text] else []) + Kept(rows)
  {
    assert ([row] + rows)[1..] == rows;
  }

  /** `get_responses(session_id)` on a table that could be read. */
  function Responses(rows: seq<Row>, sessionId: string): seq<string>
  {
    Kept(Reverse(OfSession(rows, sessionId)))
  }

  /** A row added to the table comes first among its session's responses,
      unless its text is blank; the other sessions do not see it. */
  lemma ResponsesAfterInsert(rows: seq<Row>, row: Row, sessionId: string)
    ensures Responses(rows + [row], sessionId) ==
      (if row.sessionId == sessionId && !IsBlank(row.text) then [row.text] else []) + Responses(rows, sessionId)
  {
    var s := OfSession(rows, sessionId);
    OfSessionAppend(rows, row, sessionId);
    if row.sessionId == sessionId {
      ReverseAppend(s, row);
      KeptCons(row, Reverse(s));
    } else {
      assert s + [] == s;
    }
  }

  /** Three responses A, B, C added in that order are read back as
      C, B, A, ahead of what was there before. */
  lemma InsertionOrder(rows: seq<Row>, a: Row, b: Row, c: Row, sessionId: string)
    requires a.sessionId == sessionId && b.sessionId == sessionId && c.sessionId == sessionId
    requires !IsBlank(a.text) && !IsBlank(b.text) && !IsBlank(c.text)
    ensures Responses(rows + [a, b, c], sessionId) == [c.text, b.text, a.text] + Responses(rows, sessionId)
  {
    var ra := rows + [a];
    var rb := ra + [b];
    AppendThree(rows, a, b, c);
    ResponsesAfterInsert(rows, a, sessionId);
    ResponsesAfterInsert(ra, b, sessionId);
    ResponsesAfterInsert(rb, c, sessionId);
    ConsThree(c.text, b.text, a.text, Responses(rows, sessionId));
  }

  /** A table of responses as the app keeps it: ids unique, rows stamped
      in insertion order and before `clock`, every text stripped. */
  predicate RowsValid(rows: seq<Row>, clock: nat)
  {
    && (forall i, j :: 0 <= i < j < |rows| ==> rows[i].id != rows[j].id)
    && Chronological(rows)
    && (forall i :: 0 <= i < |rows| ==> rows[i].createdAt < clock)
    && (forall i :: 0 <= i < |rows| ==> Trimmed(rows[i].text))
  }

  /** No whitespace at either end: what `strip()` leaves. */
  predicate Trimmed(t: string)
  {
    t == [] || (!IsSpace(t[0]) && !IsSpace(t[|t| - 1]))
  }

  function RowIds(rows: seq<Row>): set<string>
  {
    set r | r in rows :: r.id
  }

  lemma RowsValidAppend(rows: seq<Row>, clock: nat, row: Row)
    requires RowsValid(rows, clock)
    requires row.id !in RowIds(rows) && row.createdAt == clock && Trimmed(row.text)
    ensures RowsValid(rows + [row], clock + 1)
  {
    var all := rows + [row];
    forall i | 0 <= i < |rows| ensures all[i].id != row.id {
      assert rows[i] in rows;
    }
  }

  /** A table of sessions as the app keeps it: PINs and ids unique (the
      `UNIQUE` and `PRIMARY KEY` constraints), each stamped before `clock`. */
  predicate SessionsValid(sessions: seq<Session>, clock: nat)
  {
    && (forall i, j :: 0 <= i < j < |sessions| ==> sessions[i].pin != sessions[j].pin)
    && (forall i, j :: 0 <= i < j < |sessions| ==> sessions[i].id != sessions[j].id)
    && (forall i :: 0 <= i < |sessions| ==> sessions[i].createdAt < clock)
  }

  lemma SessionsValidAppend(sessions: seq<Session>, clock: nat, s: Session)
    requires SessionsValid(sessions, clock)
    requires s.pin !in Pins(sessions) && s.id !in SessionIds(sessions) && s.createdAt == clock
    ensures SessionsValid(sessions + [s], clock + 1)
  {
    var all := sessions + [s];
    forall i | 0 <= i < |sessions| ensures all[i].pin != s.pin && all[i].id != s.id {
      assert sessions[i] in sessions;
    }
  }

  // ---------------------------------------------------------------------
  // The database

  class Database {
    var sessions: seq<Session>
    var responses: seq<Row>
    var config: map<string, string>
    /** The time the next insert is stamped with. */
    var clock: nat

    /** Both tables are as the app keeps them, and the clock is ahead of
        every stamp. */
    ghost predicate Valid()
      reads this
    {
      SessionsValid(sessions, clock) && RowsValid(responses, clock)
    }

    /** A fresh database file: empty tables, no password row yet. */
    constructor ()
      ensures Valid()
      ensures sessions == [] && responses == [] && config == map[] && clock == 0
    {
      sessions, responses, config, clock := [], [], map[], 0;
    }

    /** `init_db()`: seed the default password when there is none. */
    method InitDb(fault: bool)
      requires Valid()
      modifies this`config
      ensures Valid()
      ensures config == if fault then old(config) else Seeded(old(config))
    {
      if !fault {
        if PasswordKey !in config {
          config := config[PasswordKey := DefaultPassword];
        }
      }
    }

    /** `get_moderator_password()`: the stored password, or the default
        when there is no row or the read fails. */
    function ModeratorPassword(fault: bool): (p: string)
      reads this
      ensures !fault && PasswordKey in config ==> p == config[PasswordKey]
      ensures fault || PasswordKey !in config ==> p == DefaultPassword
    {
      if fault then DefaultPassword else StoredPassword(config)
    }

    /** `update_moderator_password(new)`: reports success unless the
        database fails, even when there was no row to update. */
    method UpdateModeratorPassword(newPassword: string, fault: bool) returns (ok: bool)
      requires Valid()
      modifies this`config
      ensures Valid()
      ensures ok == !fault
      ensures config == if fault then old(config) else Updated(old(config), newPassword)
    {
      if fault {
        return false;
      }
      if PasswordKey in config {
        config := config[PasswordKey := newPassword];
      }
      ok := true;
    }

    /** `create_session(question)`: make a PIN from `first`, or from
        `second` when the first PIN is taken, and insert the session under
        `sessionId`. The insert fails, and nothing is stored, when the PIN
        chosen is taken as well or the id is in use (the constraints of
        the table), or when the database fails. */
    method CreateSession(question: string, first: nat, second: nat, sessionId: string, fault: bool)
      returns (result: Option<(string, string)>)
      requires Valid()
      modifies this`sessions, this`clock
      ensures Valid()
      ensures var pin := ChosenPin(Pins(old(sessions)), first, second);
        && (result.Some? <==> !fault && pin !in Pins(old(sessions)) && sessionId !in SessionIds(old(sessions)))
        && (result.Some? ==> result.value == (sessionId, pin)
                             && sessions == old(sessions) + [Session(sessionId, pin, question, old(clock))]
                             && clock == old(clock) + 1
                             && FindPin(sessions, pin) == Some(Session(sessionId, pin, question, old(clock))))
        && (result.None? ==> sessions == old(sessions) && clock == old(clock))
      ensures responses == old(responses) && config == old(config)
    {
      var pin := Pin(first);
      if pin in Pins(sessions) {
        pin := Pin(second);
      }
      if fault || pin in Pins(sessions) || sessionId in SessionIds(sessions) {
        return None;
      }
      var s := Session(sessionId, pin, question, clock);
      FindAppended(sessions, s);
      SessionsValidAppend(sessions, clock, s);
      sessions := sessions + [s];
      clock := clock + 1;
      result := Some((sessionId, pin));
    }

    /** `get_session_by_pin(pin)`: the session with that PIN, or nothing
        when there is none or the database fails. */
    function SessionByPin(pin: string, fault: bool): (r: Option<Session>)
      reads this
      ensures r.Some? ==> !fault && r.value in sessions && r.value.pin == pin
      ensures !fault && (exists i :: 0 <= i < |sessions| && sessions[i].pin == pin) ==> r.Some?
    {
      if fault then None else FindPin(sessions, pin)
    }

    /** `add_response(session_id, response)`: store the stripped text
        under `responseId`. Fails, storing nothing, when the id is in use
        or the database fails. Blank text is stored like any other. */
    method AddResponse(sessionId: string, response: string, responseId: string, fault: bool)
      returns (ok: bool)
      requires Valid()
      modifies this`responses, this`clock
      ensures Valid()
      ensures ok <==> !fault && responseId !in RowIds(old(responses))
      ensures ok ==> responses == old(responses) + [Row(responseId, sessionId, Strip(response), old(clock))]
                     && clock == old(clock) + 1
      ensures !ok ==> responses == old(responses) && clock == old(clock)
      ensures sessions == old(sessions) && config == old(config)
    {
      if fault || responseId in RowIds(responses) {
        return false;
      }
      var row := Row(responseId, sessionId, Strip(response), clock);
      RowsValidAppend(responses, clock, row);
      responses := responses + [row];
      clock := clock + 1;
      ok := true;
    }

    /** The rows `get_responses` reads for a session are those of the
        session, newest first, since the table keeps its rows in the order
        they were stamped. */
    lemma StoredNewestFirst(sessionId: string)
      requires Valid()
      ensures NewestFirst(Reverse(OfSession(responses, sessionId)))
      ensures multiset(Reverse(OfSession(responses, sessionId))) == multiset(OfSession(responses, sessionId))
    {
      ReverseIsNewestFirst(responses, sessionId);
    }

    /** `get_responses(session_id)`: the session's non-blank responses,
        newest first; nothing when the database fails. */
    function ResponsesOf(sessionId: string, fault: bool): (r: seq<string>)
      reads this
      ensures forall t :: t in r ==> !IsBlank(t)
      ensures fault ==> r == []
    {
      if fault then [] else Responses(responses, sessionId)
    }
  }
}
