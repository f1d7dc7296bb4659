/** The data layer (store.js): the three backend tables as plain rows, the
    outcome of each backend call as a flag, and the shaping of a profile row and
    its message and payment-history rows into the profile the screens use. The
    backend's `order('created_at', …)` is modelled by a stable insertion sort on
    `created_at`. */
module Store {
  import opened Js

  // ---------------------------------------------------------------------------
  // Rows of the backend tables

  /** A row of `profiles`; nullable columns are options. */
  datatype ProfileRow = ProfileRow(
    id: string, username: string, role: Option<string>, alias: Option<string>,
    paymentStatus: string, nextPaymentDate: Option<string>, internetSpeed: Option<int>,
    wifiSsid: Option<string>, wifiPass: Option<string>)

  /** A row of `messages`; `created_at` as milliseconds since the epoch. */
  datatype MessageRow = MessageRow(
    id: int, userId: string, text: string, senderRole: string, createdAt: int, read: bool)

  /** A row of `payment_history`. */
  datatype HistoryRow = HistoryRow(
    id: int, userId: string, period: string, amount: string, status: string, date: string,
    createdAt: int)

  datatype Backend = Backend(profiles: seq<ProfileRow>, messages: seq<MessageRow>, history: seq<HistoryRow>)

  // ---------------------------------------------------------------------------
  // The profile as the screens see it

  datatype Message = Message(id: int, text: string, from: string, timestamp: int, read: bool)

  datatype HistoryItem = HistoryItem(
    id: int, period: string, amount: string, status: string, date: string, timestamp: int)

  datatype Profile = Profile(
    id: string, username: string, alias: string, paymentStatus: string,
    nextPaymentDate: Option<string>, internetSpeed: Option<int>,
    wifiSsid: Option<string>, wifiPass: Option<string>,
    messages: seq<Message>, paymentHistory: seq<HistoryItem>)

  function ToMessage(m: MessageRow): Message {
    Message(m.id, m.text, m.senderRole, m.createdAt, m.read)
  }

  function ToHistoryItem(h: HistoryRow): HistoryItem {
    HistoryItem(h.id, h.period, h.amount, h.status, h.date, h.createdAt)
  }

  // ---------------------------------------------------------------------------
  // Ordering by created_at

  predicate SortedBy<T>(s: seq<T>, key: T -> int) {
    forall i, j :: 0 <= i < j < |s| ==> key(s[i]) <= key(s[j])
  }

  /** `x` placed into `s` after every element whose key is not greater. */
  function InsertBy<T(==)>(s: seq<T>, x: T, key: T -> int): (r: seq<T>)
    ensures multiset(r) == multiset(s) + multiset{x}
  {
    if s == [] || key(s[|s| - 1]) <= key(x) then s + [x]
    else
      assert s == s[..|s| - 1] + [s[|s| - 1]];
      InsertBy(s[..|s| - 1], x, key) + [s[|s| - 1]]
  }

  /** Inserting into a sorted list keeps it sorted. */
  lemma {:induction false} InsertBySorted<T>(s: seq<T>, x: T, key: T -> int)
    requires SortedBy(s, key)
    ensures SortedBy(InsertBy(s, x, key), key)
  {
    if s != [] && key(x) < key(s[|s| - 1]) {
      var init, last := s[..|s| - 1], s[|s| - 1];
      InsertBySorted(init, x, key);
      var r' := InsertBy(init, x, key);
      forall k | 0 <= k < |r'| ensures key(r'[k]) <= key(last) {
        assert r'[k] in multiset(r');
        if r'[k] != x {
          assert r'[k] in multiset(init);
          var j :| 0 <= j < |init| && init[j] == r'[k];
          assert s[j] == init[j];
        }
      }
    }
  }

  /** Stable sort on `key`, ascending: a sorted rearrangement of `s`. */
  function SortBy<T(==)>(s: seq<T>, key: T -> int): (r: seq<T>)
    ensures SortedBy(r, key)
    ensures multiset(r) == multiset(s)
  {
    if s == [] then []
    else
      assert s == s[..|s| - 1] + [s[|s| - 1]];
      var sorted := SortBy(s[..|s| - 1], key);
      InsertBySorted(sorted, s[|s| - 1], key);
      InsertBy(sorted, s[|s| - 1], key)
  }

  /** A row whose key is greater than every other goes last. */
  lemma SortByAppendGreatest<T>(s: seq<T>, x: T, key: T -> int)
    requires forall k :: 0 <= k < |s| ==> key(s[k]) < key(x)
    ensures SortBy(s + [x], key) == SortBy(s, key) + [x]
  {
    var t := s + [x];
    assert t[..|t| - 1] == s;
    var r := SortBy(s, key);
    if r != [] {
      assert r[|r| - 1] in multiset(s);
    }
  }

  /** `x` goes in front of a list whose keys are all greater. */
  lemma {:induction false} InsertBySmallest<T>(s: seq<T>, x: T, key: T -> int)
    requires forall k :: 0 <= k < |s| ==> key(x) < key(s[k])
    ensures InsertBy(s, x, key) == [x] + s
  {
    if s != [] {
      InsertBySmallest(s[..|s| - 1], x, key);
      assert [x] + s[..|s| - 1] + [s[|s| - 1]] == [x] + s;
    }
  }

  /** A row whose key is smaller than every other goes first. */
  lemma SortByAppendSmallest<T>(s: seq<T>, x: T, key: T -> int)
    requires forall k :: 0 <= k < |s| ==> key(x) < key(s[k])
    ensures SortBy(s + [x], key) == [x] + SortBy(s, key)
  {
    var t := s + [x];
    assert t[..|t| - 1] == s;
    var r := SortBy(s, key);
    forall k | 0 <= k < |r| ensures key(x) < key(r[k]) {
      assert r[k] in multiset(s);
    }
    InsertBySmallest(r, x, key);
  }

  // ---------------------------------------------------------------------------
  // Selecting a user's rows

  function MessagesOf(rows: seq<MessageRow>, userId: string): (r: seq<MessageRow>)
    ensures forall k :: 0 <= k < |r| ==> r[k].userId == userId
  {
    if rows == [] then []
    else
      var last := rows[|rows| - 1];
      MessagesOf(rows[..|rows| - 1], userId) + (if last.userId == userId then [last] else [])
  }

  function HistoryOf(rows: seq<HistoryRow>, userId: string): (r: seq<HistoryRow>)
    ensures forall k :: 0 <= k < |r| ==> r[k].userId == userId
  {
    if rows == [] then []
    else
      var last := rows[|rows| - 1];
      HistoryOf(rows[..|rows| - 1], userId) + (if last.userId == userId then [last] else [])
  }

  function ProfilesWithId(rows: seq<ProfileRow>, id: string): (r: seq<ProfileRow>)
    ensures forall k :: 0 <= k < |r| ==> r[k].id == id
  {
    if rows == [] then []
    else
      var last := rows[|rows| - 1];
      ProfilesWithId(rows[..|rows| - 1], id) + (if last.id == id then [last] else [])
  }

  function MapMessages(rows: seq<MessageRow>): (r: seq<Message>)
    ensures |r| == |rows| && forall k :: 0 <= k < |rows| ==> r[k] == ToMessage(rows[k])
  {
    seq(|rows|, k requires 0 <= k < |rows| => ToMessage(rows[k]))
  }

  function MapHistory(rows: seq<HistoryRow>): (r: seq<HistoryItem>)
    ensures |r| == |rows| && forall k :: 0 <= k < |rows| ==> r[k] == ToHistoryItem(rows[k])
  {
    seq(|rows|, k requires 0 <= k < |rows| => ToHistoryItem(rows[k]))
  }

  // ---------------------------------------------------------------------------
  // getUsers, findUserById

  /** `getUsers()`: every profile row, or `[]` when the query fails. */
  function GetUsers(db: Backend, ok: bool): (r: seq<ProfileRow>)
    ensures !ok ==> r == []
    ensures ok ==> r == db.profiles
  {
    if ok then db.profiles else []
  }

  /** `.select('*').eq('id', id).single()`: the row when exactly one matches. */
  function SingleProfile(db: Backend, id: string): (r: Option<ProfileRow>)
    ensures r.Some? <==> |ProfilesWithId(db.profiles, id)| == 1
    ensures r.Some? ==> r.value.id == id && r.value in db.profiles
  {
    var rows := ProfilesWithId(db.profiles, id);
    if |rows| == 1 then
      ProfilesWithIdIn(db.profiles, id, 0);
      Some(rows[0])
    else None
  }

  lemma {:induction false} ProfilesWithIdIn(rows: seq<ProfileRow>, id: string, k: nat)
    requires k < |ProfilesWithId(rows, id)|
    ensures ProfilesWithId(rows, id)[k] in rows
  {
    var init := rows[..|rows| - 1];
    if k < |ProfilesWithId(init, id)| {
      ProfilesWithIdIn(init, id, k);
    }
  }

  // ---------------------------------------------------------------------------
  // getProfile

  /** Whether each of the three queries of `getProfile` succeeded. */
  datatype Replies = Replies(profileOk: bool, messagesOk: bool, historyOk: bool)

  /** The outcome of `getProfile(userId)`: `null`, the profile, or a rejected
      promise (a failed message or history query leaves `null`, whose `.map`
      throws). */
  datatype Lookup = NoProfile | Found(profile: Profile) | Crashed

  /** Messages by `created_at` ascending; history by `created_at` descending. */
  function MessageKey(m: Message): int { m.timestamp }
  function HistoryKey(h: HistoryItem): int { -h.timestamp }

  function GetProfile(db: Backend, userId: string, replies: Replies): (r: Lookup)
    ensures r.NoProfile? <==> !replies.profileOk || SingleProfile(db, userId).None?
    ensures r.Crashed? <==> replies.profileOk && SingleProfile(db, userId).Some?
                            && !(replies.messagesOk && replies.historyOk)
    ensures r.Found? ==>
      var row := SingleProfile(db, userId).value;
      var p := r.profile;
      p.id == userId && p.username == row.username && p.alias == OrElse(row.alias, "")
      && p.paymentStatus == row.paymentStatus && p.nextPaymentDate == row.nextPaymentDate
      && p.internetSpeed == row.internetSpeed && p.wifiSsid == row.wifiSsid && p.wifiPass == row.wifiPass
    ensures r.Found? ==>
      SortedBy(r.profile.messages, MessageKey)
      && multiset(r.profile.messages) == multiset(MapMessages(MessagesOf(db.messages, userId)))
    ensures r.Found? ==>
      SortedBy(r.profile.paymentHistory, HistoryKey)
      && multiset(r.profile.paymentHistory) == multiset(MapHistory(HistoryOf(db.history, userId)))
  {
    var row := SingleProfile(db, userId);
    if !replies.profileOk || row.None? then NoProfile
    else if !replies.messagesOk || !replies.historyOk then Crashed
    else
      var p := row.value;
      Found(Profile(
        p.id, p.username, OrElse(p.alias, ""), p.paymentStatus, p.nextPaymentDate,
        p.internetSpeed, p.wifiSsid, p.wifiPass,
        SortBy(MapMessages(MessagesOf(db.messages, userId)), MessageKey),
        SortBy(MapHistory(HistoryOf(db.history, userId)), HistoryKey)))
  }

  /** The first payment-history item is the most recently created one. */
  lemma LatestHistoryFirst(db: Backend, userId: string, replies: Replies)
    requires GetProfile(db, userId, replies).Found?
    ensures var h := GetProfile(db, userId, replies).profile.paymentHistory;
            forall k :: 0 <= k < |h| ==> h[k].timestamp <= h[0].timestamp
  {
    var h := GetProfile(db, userId, replies).profile.paymentHistory;
    forall k | 0 <= k < |h| ensures h[k].timestamp <= h[0].timestamp {
      if k > 0 {
        assert HistoryKey(h[0]) <= HistoryKey(h[k]);
      }
    }
  }

  // ---------------------------------------------------------------------------
  // updateProfile

  /** The column each field of the update object is written to. */
  const Columns: seq<(string, string)> := [
    ("alias", "alias"), ("paymentStatus", "payment_status"),
    ("nextPaymentDate", "next_payment_date"), ("internetSpeed", "internet_speed"),
    ("wifiSSID", "wifi_ssid"), ("wifiPass", "wifi_pass")]

  /** `updates.f !== undefined` for a JavaScript object given as a map. */
  predicate Defined(updates: map<string, JsValue>, f: string) {
    f in updates && updates[f] != Undefined
  }

  predicate IsColumn(c: string) {
    exists k :: 0 <= k < |Columns| && Columns[k].1 == c
  }

  /** The first `n` fields of the table have been copied: each mapped column is
      present exactly when its field is defined, with the field's value, and no
      other column is present. */
  ghost predicate BuiltUpTo(updates: map<string, JsValue>, sql: map<string, JsValue>, n: nat)
    requires n <= |Columns|
  {
    (forall k :: 0 <= k < n ==>
       (Columns[k].1 in sql <==> Defined(updates, Columns[k].0))
       && (Columns[k].1 in sql ==> sql[Columns[k].1] == updates[Columns[k].0]))
    && forall c :: c in sql ==> exists k :: 0 <= k < n && Columns[k].1 == c
  }

  /** One line `if (updates.f !== undefined) sqlUpdates.c = updates.f`, for
      the `n`-th pair of the table. */
  method CopyField(updates: map<string, JsValue>, sql: map<string, JsValue>, n: nat) returns (r: map<string, JsValue>)
    requires n < |Columns| && BuiltUpTo(updates, sql, n)
    ensures BuiltUpTo(updates, r, n + 1)
  {
    r := sql;
    if Defined(updates, Columns[n].0) {
      r := sql[Columns[n].1 := updates[Columns[n].0]];
    }
    forall k | 0 <= k < n ensures Columns[k].1 != Columns[n].1 {
    }
  }

  /** The snake-case object `updateProfile` sends: a column for each mapped
      field that is defined, holding the field's value. */
  method BuildSqlUpdates(updates: map<string, JsValue>) returns (sql: map<string, JsValue>)
    ensures forall k :: 0 <= k < |Columns| ==>
              (Columns[k].1 in sql <==> Defined(updates, Columns[k].0))
    ensures forall k :: 0 <= k < |Columns| && Columns[k].1 in sql ==>
              Columns[k].0 in updates && sql[Columns[k].1] == updates[Columns[k].0]
    ensures forall c :: c in sql ==> IsColumn(c)
  {
    sql := map[];
    sql := CopyField(updates, sql, 0);  // alias
    sql := CopyField(updates, sql, 1);  // paymentStatus -> payment_status
    sql := CopyField(updates, sql, 2);  // nextPaymentDate -> next_payment_date
    sql := CopyField(updates, sql, 3);  // internetSpeed -> internet_speed
    sql := CopyField(updates, sql, 4);  // wifiSSID -> wifi_ssid
    sql := CopyField(updates, sql, 5);  // wifiPass -> wifi_pass
  }

  /** `username` and `password` are not columns, so they never reach the
      update. */
  lemma CredentialsNotColumns()
    ensures !IsColumn("username") && !IsColumn("password")
  {
    forall k | 0 <= k < |Columns| ensures Columns[k].1 != "username" && Columns[k].1 != "password" {
    }
  }

  // ---------------------------------------------------------------------------
  // addMessage, markMessagesRead

  /** `addMessage(userId, {from, text})` when the insert succeeds: the backend
      gives the row its id and `created_at`; it is always stored unread. */
  function AddMessage(db: Backend, userId: string, from: string, text: string, id: int, createdAt: int): (r: Backend)
    ensures r.profiles == db.profiles && r.history == db.history
    ensures r.messages == db.messages + [MessageRow(id, userId, text, from, createdAt, false)]
  {
    db.(messages := db.messages + [MessageRow(id, userId, text, from, createdAt, false)])
  }

  /** A message newer than all others of its user shows up last in the
      profile, unread and with its sender. */
  lemma AddMessageShowsLast(db: Backend, userId: string, from: string, text: string, id: int, createdAt: int, replies: Replies)
    requires forall k :: 0 <= k < |db.messages| && db.messages[k].userId == userId ==> db.messages[k].createdAt < createdAt
    requires GetProfile(db, userId, replies).Found?
    ensures var after := GetProfile(AddMessage(db, userId, from, text, id, createdAt), userId, replies);
            after.Found?
            && after.profile.messages == GetProfile(db, userId, replies).profile.messages + [Message(id, text, from, createdAt, false)]
  {
    var db2 := AddMessage(db, userId, from, text, id, createdAt);
    var row := MessageRow(id, userId, text, from, createdAt, false);
    assert db2.messages[..|db2.messages| - 1] == db.messages;
    assert MessagesOf(db2.messages, userId) == MessagesOf(db.messages, userId) + [row];
    var old_ := MessagesOf(db.messages, userId);
    MessagesOfFrom(db.messages, userId);
    forall k | 0 <= k < |MapMessages(old_)| ensures MessageKey(MapMessages(old_)[k]) < MessageKey(ToMessage(row)) {
      assert old_[k] in db.messages;
    }
    assert MapMessages(old_ + [row]) == MapMessages(old_) + [ToMessage(row)];
    SortByAppendGreatest(MapMessages(old_), ToMessage(row), MessageKey);
  }

  /** Every selected row comes from the table. */
  lemma {:induction false} MessagesOfFrom(rows: seq<MessageRow>, userId: string)
    ensures forall k :: 0 <= k < |MessagesOf(rows, userId)| ==> MessagesOf(rows, userId)[k] in rows
  {
    if rows != [] {
      var init := rows[..|rows| - 1];
      MessagesOfFrom(init, userId);
      assert rows == init + [rows[|rows| - 1]];
    }
  }

  /** `markMessagesRead(userId, senderRole)`: the unread messages of that user
      from that sender become read; nothing else changes. */
  function MarkMessagesRead(db: Backend, userId: string, senderRole: string): (r: Backend)
    ensures r.profiles == db.profiles && r.history == db.history
    ensures |r.messages| == |db.messages|
    ensures forall k :: 0 <= k < |db.messages| ==>
      var m := db.messages[k];
      r.messages[k] == if m.userId == userId && m.senderRole == senderRole then m.(read := true) else m
  {
    db.(messages := seq(|db.messages|, k requires 0 <= k < |db.messages| =>
      var m := db.messages[k];
      if m.userId == userId && m.senderRole == senderRole && !m.read then m.(read := true) else m))
  }

  /** After the admin marks a resident's messages read, no message of the
      resident's profile is both from the resident and unread. */
  lemma MarkReadClearsUnread(db: Backend, userId: string, senderRole: string, replies: Replies)
    requires GetProfile(MarkMessagesRead(db, userId, senderRole), userId, replies).Found?
    ensures var ms := GetProfile(MarkMessagesRead(db, userId, senderRole), userId, replies).profile.messages;
            forall k :: 0 <= k < |ms| && ms[k].from == senderRole ==> ms[k].read
  {
    var db2 := MarkMessagesRead(db, userId, senderRole);
    var sel := MessagesOf(db2.messages, userId);
    var ms := GetProfile(db2, userId, replies).profile.messages;
    MarkedRowsRead(db, userId, senderRole);
    forall k | 0 <= k < |ms| && ms[k].from == senderRole ensures ms[k].read {
      assert ms[k] in multiset(MapMessages(sel));
      var i :| 0 <= i < |sel| && MapMessages(sel)[i] == ms[k];
      assert ms[k] == ToMessage(sel[i]);
      SelectedRowRead(db2.messages, userId, senderRole, i);
    }
  }

  /** After marking, every row of the user from the sender is read. */
  lemma MarkedRowsRead(db: Backend, userId: string, senderRole: string)
    ensures var rows := MarkMessagesRead(db, userId, senderRole).messages;
            forall j :: 0 <= j < |rows| && rows[j].userId == userId && rows[j].senderRole == senderRole ==> rows[j].read
  {
    var rows := MarkMessagesRead(db, userId, senderRole).messages;
    forall j | 0 <= j < |rows| && rows[j].userId == userId && rows[j].senderRole == senderRole
      ensures rows[j].read
    {
      var m := db.messages[j];
      assert rows[j] == if m.userId == userId && m.senderRole == senderRole then m.(read := true) else m;
    }
  }

  /** When every row of the user from the sender is read, so is each row of
      the user's selection from the sender. */
  lemma SelectedRowRead(rows: seq<MessageRow>, userId: string, senderRole: string, i: nat)
    requires forall j :: 0 <= j < |rows| && rows[j].userId == userId && rows[j].senderRole == senderRole ==> rows[j].read
    requires i < |MessagesOf(rows, userId)| && MessagesOf(rows, userId)[i].senderRole == senderRole
    ensures MessagesOf(rows, userId)[i].read
  {
    MessagesOfFrom(rows, userId);
    assert MessagesOf(rows, userId)[i] in rows;
  }

  // ---------------------------------------------------------------------------
  // Payment history

  /** The four fields the admin edits on a history row. */
  datatype HistoryFields = HistoryFields(period: string, date: string, amount: string, status: string)

  /** `addHistoryItem(userId, item)` when the insert succeeds. */
  function AddHistoryItem(db: Backend, userId: string, item: HistoryFields, id: int, createdAt: int): (r: Backend)
    ensures r.profiles == db.profiles && r.messages == db.messages
    ensures r.history == db.history + [HistoryRow(id, userId, item.period, item.amount, item.status, item.date, createdAt)]
  {
    db.(history := db.history + [HistoryRow(id, userId, item.period, item.amount, item.status, item.date, createdAt)])
  }

  /** `updateHistoryItem(userId, itemId, item)`: the row with that id gets the
      four fields, whoever it belongs to (the query filters on the id only). */
  function UpdateHistoryItem(db: Backend, itemId: int, item: HistoryFields): (r: Backend)
    ensures r.profiles == db.profiles && r.messages == db.messages && |r.history| == |db.history|
    ensures forall k :: 0 <= k < |db.history| ==>
      var h := db.history[k];
      r.history[k] == if h.id == itemId then h.(period := item.period, date := item.date,
                                                amount := item.amount, status := item.status)
                      else h
  {
    db.(history := seq(|db.history|, k requires 0 <= k < |db.history| =>
      var h := db.history[k];
      if h.id == itemId then h.(period := item.period, date := item.date, amount := item.amount, status := item.status)
      else h))
  }

  /** `deleteHistoryItem(userId, itemId)`: the rows with that id go. */
  function DeleteHistoryItem(db: Backend, itemId: int): (r: Backend)
    ensures r.profiles == db.profiles && r.messages == db.messages
    ensures forall k :: 0 <= k < |r.history| ==> r.history[k].id != itemId && r.history[k] in db.history
    ensures forall k :: 0 <= k < |db.history| && db.history[k].id != itemId ==> db.history[k] in r.history
  {
    db.(history := WithoutHistoryId(db.history, itemId))
  }

  function WithoutHistoryId(rows: seq<HistoryRow>, itemId: int): (r: seq<HistoryRow>)
    ensures forall k :: 0 <= k < |r| ==> r[k].id != itemId && r[k] in rows
    ensures forall k :: 0 <= k < |rows| && rows[k].id != itemId ==> rows[k] in r
  {
    if rows == [] then []
    else
      var rest := WithoutHistoryId(rows[1..], itemId);
      assert forall k :: 0 <= k < |rows[1..]| ==> rows[1..][k] == rows[k + 1];
      if rows[0].id == itemId then rest else [rows[0]] + rest
  }

  /** A history row newer than all others of its user becomes the first item of
      the payment history. */
  lemma AddHistoryBecomesFirst(db: Backend, userId: string, item: HistoryFields, id: int, createdAt: int, replies: Replies)
    requires forall k :: 0 <= k < |db.history| && db.history[k].userId == userId ==> db.history[k].createdAt < createdAt
    requires GetProfile(db, userId, replies).Found?
    ensures var after := GetProfile(AddHistoryItem(db, userId, item, id, createdAt), userId, replies);
            after.Found?
            && after.profile.paymentHistory
               == [HistoryItem(id, item.period, item.amount, item.status, item.date, createdAt)]
                  + GetProfile(db, userId, replies).profile.paymentHistory
  {
    var db2 := AddHistoryItem(db, userId, item, id, createdAt);
    var row := HistoryRow(id, userId, item.period, item.amount, item.status, item.date, createdAt);
    assert db2.history[..|db2.history| - 1] == db.history;
    var old_ := HistoryOf(db.history, userId);
    assert HistoryOf(db2.history, userId) == old_ + [row];
    HistoryOfFrom(db.history, userId);
    assert MapHistory(old_ + [row]) == MapHistory(old_) + [ToHistoryItem(row)];
    forall k | 0 <= k < |MapHistory(old_)| ensures HistoryKey(ToHistoryItem(row)) < HistoryKey(MapHistory(old_)[k]) {
      assert old_[k] in db.history;
    }
    SortByAppendSmallest(MapHistory(old_), ToHistoryItem(row), HistoryKey);
  }

  /** Every selected row comes from the table. */
  lemma {:induction false} HistoryOfFrom(rows: seq<HistoryRow>, userId: string)
    ensures forall k :: 0 <= k < |HistoryOf(rows, userId)| ==> HistoryOf(rows, userId)[k] in rows
  {
    if rows != [] {
      var init := rows[..|rows| - 1];
      HistoryOfFrom(init, userId);
      assert rows == init + [rows[|rows| - 1]];
    }
  }

  // ---------------------------------------------------------------------------
  // deleteUser

  /** The profile rows without those of `id`; the others are kept. */
  function WithoutProfile(rows: seq<ProfileRow>, id: string): (r: seq<ProfileRow>)
    ensures ProfilesWithId(r, id) == []
    ensures forall p :: p in r <==> p in rows && p.id != id
  {
    if rows == [] then []
    else
      var init := WithoutProfile(rows[..|rows| - 1], id);
      var last := rows[|rows| - 1];
      assert (init + [last])[..|init|] == init;
      assert rows == rows[..|rows| - 1] + [last];
      if last.id == id then init else init + [last]
  }

  /** `deleteUser(userId)`: the result and the backend afterwards. The
      `delete_user_by_id` procedure removes the user with all their rows; when
      it fails, the fallback removes the profile row alone, and the result says
      whether that worked. */
  function DeleteUser(db: Backend, userId: string, rpcOk: bool, fallbackOk: bool): (r: (bool, Backend))
    ensures r.0 <==> rpcOk || fallbackOk
    ensures !r.0 ==> r.1 == db
    ensures r.0 ==> ProfilesWithId(r.1.profiles, userId) == []
    ensures rpcOk ==> MessagesOf(r.1.messages, userId) == [] && HistoryOf(r.1.history, userId) == []
    ensures !rpcOk ==> r.1.messages == db.messages && r.1.history == db.history
    ensures r.0 ==> forall p :: p in r.1.profiles <==> p in db.profiles && p.id != userId
    ensures rpcOk ==> forall m :: m in r.1.messages <==> m in db.messages && m.userId != userId
    ensures rpcOk ==> forall h :: h in r.1.history <==> h in db.history && h.userId != userId
  {
    if rpcOk then
      (true, Backend(WithoutProfile(db.profiles, userId),
                     WithoutUserMessages(db.messages, userId),
                     WithoutUserHistory(db.history, userId)))
    else if fallbackOk then (true, db.(profiles := WithoutProfile(db.profiles, userId)))
    else (false, db)
  }

  /** The message rows without those of `userId`; the others are kept. */
  function WithoutUserMessages(rows: seq<MessageRow>, userId: string): (r: seq<MessageRow>)
    ensures MessagesOf(r, userId) == []
    ensures forall x :: x in r <==> x in rows && x.userId != userId
  {
    if rows == [] then []
    else
      var init := WithoutUserMessages(rows[..|rows| - 1], userId);
      var last := rows[|rows| - 1];
      var r := if last.userId == userId then init else init + [last];
      assert (init + [last])[..|init|] == init;
      assert rows == rows[..|rows| - 1] + [last];
      r
  }

  /** The history rows without those of `userId`; the others are kept. */
  function WithoutUserHistory(rows: seq<HistoryRow>, userId: string): (r: seq<HistoryRow>)
    ensures HistoryOf(r, userId) == []
    ensures forall x :: x in r <==> x in rows && x.userId != userId
  {
    if rows == [] then []
    else
      var init := WithoutUserHistory(rows[..|rows| - 1], userId);
      var last := rows[|rows| - 1];
      var r := if last.userId == userId then init else init + [last];
      assert (init + [last])[..|init|] == init;
      assert rows == rows[..|rows| - 1] + [last];
      r
  }

  /** A user reported deleted has no profile any more. */
  lemma DeletedUserHasNoProfile(db: Backend, userId: string, rpcOk: bool, fallbackOk: bool, replies: Replies)
    requires DeleteUser(db, userId, rpcOk, fallbackOk).0
    ensures GetProfile(DeleteUser(db, userId, rpcOk, fallbackOk).1, userId, replies) == NoProfile
  {
  }
}
