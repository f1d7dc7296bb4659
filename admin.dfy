/** The admin view (admin.js): the automatic `pending` to `overdue` rule of the
    resident list, the list's rows and the status writes one render issues, the
    re-derivation of a profile's status and next due date after a payment-history
    row is saved, the chat and overdue-notice messages, and the poll that
    announces new messages. */
module Admin {
  import opened Js
  import opened Calendar
  import opened DueDates
  import opened PaymentStatus
  import Store

  // ---------------------------------------------------------------------------
  // Status labels

  /** The badge styles of the three statuses. */
  const PaidColor: string := "rgba(16, 185, 129, 0.2); color: #34d399; border: 1px solid rgba(16, 185, 129, 0.3)"
  const PendingColor: string := "rgba(245, 158, 11, 0.2); color: #fbbf24; border: 1px solid rgba(245, 158, 11, 0.3)"
  const OverdueColor: string := "rgba(244, 63, 94, 0.2); color: #fb7185; border: 1px solid rgba(244, 63, 94, 0.3)"

  /** `getStatusColor(status)`: the CSS of the status badge, chosen by the same
      cases as its text. */
  function StatusColor(status: string): (r: string)
    ensures StatusText(status) == "Pagado" ==> r == PaidColor
    ensures StatusText(status) == "Pendiente" ==> r == PendingColor
    ensures StatusText(status) == "Vencido" ==> r == OverdueColor
  {
    if status == "paid" then PaidColor
    else if status == "pending" then PendingColor
    else OverdueColor
  }

  // ---------------------------------------------------------------------------
  // The automatic overdue rule

  /** The status a profile is shown with after the overdue check of one render:
      a `pending` profile whose normalised due date has ended becomes
      `overdue`. */
  function ApplyOverdue(status: string, nextPaymentDate: Option<string>, clock: Clock): (r: string)
    requires clock.Valid()
  {
    if status == "pending" && PastDue(clock, NormalizeDueDate(nextPaymentDate, clock)) then "overdue"
    else status
  }

  /** The rule only ever turns `pending` into `overdue`, and does so exactly
      when the clock is past 23:59:59 of the normalised due date; `paid`,
      `overdue` and any other status stay as they are. */
  lemma OverdueRule(status: string, nextPaymentDate: Option<string>, clock: Clock)
    requires clock.Valid()
    ensures var r := ApplyOverdue(status, nextPaymentDate, clock);
            (r != status <==> status == "pending" && PastDue(clock, NormalizeDueDate(nextPaymentDate, clock)))
            && (r != status ==> r == "overdue")
            && (status != "pending" ==> r == status)
  {
  }

  /** Applying the rule a second time changes nothing. */
  lemma OverdueIdempotent(status: string, nextPaymentDate: Option<string>, clock: Clock)
    requires clock.Valid()
    ensures var once := ApplyOverdue(status, nextPaymentDate, clock);
            ApplyOverdue(once, nextPaymentDate, clock) == once
  {
  }

  /** A due date whose month word the table lacks never makes a profile
      overdue. */
  lemma UnknownMonthNeverOverdue(status: string, due: string, clock: Clock)
    requires clock.Valid() && due != "" && !IsIsoShape(due)
    requires var p := SearchFrom(ToLower(due), 0); p.Some? && p.value.month !in MonthNames
    ensures ApplyOverdue(status, Some(due), clock) == status
  {
    UnknownMonthNeverDue(due, clock);
  }

  /** A pending ISO due date becomes overdue on the local day after it, and
      not before 23:59:59 of the day itself. */
  lemma IsoDueDateOverdue(due: Date, clock: Clock)
    requires clock.Valid() && ValidDate(due) && FourDigitYear(due)
    ensures Before(due, clock.today) ==> ApplyOverdue("pending", Some(FormatIso(due)), clock) == "overdue"
    ensures Before(clock.today, due) ==> ApplyOverdue("pending", Some(FormatIso(due)), clock) == "pending"
    ensures clock.today == due && clock.msOfDay <= EndOfDayMs ==>
              ApplyOverdue("pending", Some(FormatIso(due)), clock) == "pending"
  {
    FormatIsoShape(due);
    ParseFormatIso(due);
    NormalizeIsoAndMissing(FormatIso(due), clock);
  }

  // ---------------------------------------------------------------------------
  // renderResidentList

  /** `users.filter(u => u.role === 'resident')`. */
  function Residents(users: seq<Store.ProfileRow>): (r: seq<Store.ProfileRow>)
    ensures forall k :: 0 <= k < |r| ==> r[k].role == Some("resident") && r[k] in users
    ensures forall k :: 0 <= k < |users| && users[k].role == Some("resident") ==> users[k] in r
  {
    if users == [] then []
    else
      var init := users[..|users| - 1];
      var last := users[|users| - 1];
      var rest := Residents(init);
      assert users == init + [last];
      rest + (if last.role == Some("resident") then [last] else [])
  }

  /** The unread marker of the "Mensajes" button. */
  predicate HasUnread(p: Store.Profile) {
    exists k :: 0 <= k < |p.messages| && p.messages[k].from == "resident" && !p.messages[k].read
  }

  /** One row of the resident table. */
  datatype RowView = RowView(
    userId: string, username: string, alias: string, statusText: string, statusColor: string,
    dueLabel: string, unread: bool, notifyVisible: bool)

  /** The row of a resident with a profile, after the overdue rule. */
  function RowOf(user: Store.ProfileRow, p: Store.Profile, clock: Clock): (r: RowView)
    requires clock.Valid()
    ensures var status := ApplyOverdue(p.paymentStatus, p.nextPaymentDate, clock);
            r.statusText == StatusText(status) && r.statusColor == StatusColor(status)
            && r.dueLabel == OrElse(p.nextPaymentDate, "N/A")
            && (r.unread <==> HasUnread(p))
            && (r.notifyVisible <==> status == "overdue")
  {
    var status := ApplyOverdue(p.paymentStatus, p.nextPaymentDate, clock);
    RowView(user.id, user.username, p.alias, StatusText(status), StatusColor(status),
            OrElse(p.nextPaymentDate, "N/A"), HasUnread(p), status == "overdue")
  }

  /** The profile behind a lookup, `null` for anything but a found one. */
  function ProfileOf(l: Store.Lookup): Option<Store.Profile> {
    if l.Found? then Some(l.profile) else None
  }

  /** Whether the profile of a lookup turns from `pending` to `overdue`. */
  predicate Transitions(l: Store.Lookup, clock: Clock)
    requires clock.Valid()
  {
    l.Found? && ApplyOverdue(l.profile.paymentStatus, l.profile.nextPaymentDate, clock) != l.profile.paymentStatus
  }

  /** The rows of the residents that have a profile, in order. */
  function ExpectedRows(users: seq<Store.ProfileRow>, lookups: seq<Store.Lookup>, clock: Clock): seq<RowView>
    requires |users| == |lookups| && clock.Valid()
  {
    if users == [] then []
    else
      var n := |users| - 1;
      ExpectedRows(users[..n], lookups[..n], clock)
      + (if lookups[n].Found? then [RowOf(users[n], lookups[n].profile, clock)] else [])
  }

  /** The ids that get a `{paymentStatus: 'overdue'}` write, in order. */
  function ExpectedWrites(users: seq<Store.ProfileRow>, lookups: seq<Store.Lookup>, clock: Clock): seq<string>
    requires |users| == |lookups| && clock.Valid()
  {
    if users == [] then []
    else
      var n := |users| - 1;
      ExpectedWrites(users[..n], lookups[..n], clock) + (if Transitions(lookups[n], clock) then [users[n].id] else [])
  }

  /** Which residents' profiles turn overdue in one render. */
  function TransitionFlags(lookups: seq<Store.Lookup>, clock: Clock): (r: seq<bool>)
    requires clock.Valid()
    ensures |r| == |lookups| && forall k :: 0 <= k < |r| ==> (r[k] <==> Transitions(lookups[k], clock))
  {
    seq(|lookups|, k requires 0 <= k < |lookups| => Transitions(lookups[k], clock))
  }

  /** The positions of the set flags, ascending. */
  function TrueIndices(flags: seq<bool>): (r: seq<nat>)
    ensures forall k :: 0 <= k < |r| ==> r[k] < |flags| && flags[r[k]]
    ensures forall i, j :: 0 <= i < j < |r| ==> r[i] < r[j]
    ensures forall i :: 0 <= i < |flags| && flags[i] ==> i in r
  {
    if flags == [] then []
    else
      var n := |flags| - 1;
      var rest := TrueIndices(flags[..n]);
      assert forall k :: 0 <= k < n ==> flags[..n][k] == flags[k];
      rest + (if flags[n] then [n] else [])
  }

  /** One write per resident whose profile turns overdue, in list order, and
      none for the others. */
  lemma {:induction false} WritesPerTransition(users: seq<Store.ProfileRow>, lookups: seq<Store.Lookup>, clock: Clock)
    requires |users| == |lookups| && clock.Valid()
    ensures var w := ExpectedWrites(users, lookups, clock);
            var t := TrueIndices(TransitionFlags(lookups, clock));
            |w| == |t| && forall k :: 0 <= k < |t| ==> w[k] == users[t[k]].id
  {
    if users != [] {
      var n := |users| - 1;
      WritesPerTransition(users[..n], lookups[..n], clock);
      var f := TransitionFlags(lookups, clock);
      assert TransitionFlags(lookups[..n], clock) == f[..n];
      var w0 := ExpectedWrites(users[..n], lookups[..n], clock);
      var t0 := TrueIndices(f[..n]);
      assert f[n] == Transitions(lookups[n], clock);
      assert ExpectedWrites(users, lookups, clock) == w0 + (if f[n] then [users[n].id] else []);
      assert TrueIndices(f) == t0 + (if f[n] then [n] else []);
      var w, t := ExpectedWrites(users, lookups, clock), TrueIndices(f);
      forall k | 0 <= k < |t| ensures w[k] == users[t[k]].id {
        if k < |t0| {
          assert w[k] == w0[k] && t[k] == t0[k];
          assert users[..n][t0[k]] == users[t0[k]];
        }
      }
    }
  }

  /** Whether some profile lookup of the render failed: `Promise.all` rejects
      and the render ends in its `catch`. */
  predicate AnyCrashed(lookups: seq<Store.Lookup>) {
    exists k :: 0 <= k < |lookups| && lookups[k].Crashed?
  }

  /** The profile lookups of a render, one per resident. */
  function LookupsFor(residents: seq<Store.ProfileRow>, db: Store.Backend, replies: string -> Store.Replies): (r: seq<Store.Lookup>)
    ensures |r| == |residents|
    ensures forall k :: 0 <= k < |residents| ==> r[k] == Store.GetProfile(db, residents[k].id, replies(residents[k].id))
  {
    seq(|residents|, k requires 0 <= k < |residents| =>
      Store.GetProfile(db, residents[k].id, replies(residents[k].id)))
  }

  /** `renderResidentList()` with the backend given as rows and replies: the
      table rows (`None` when the render fails and the table is left as it
      was) and the ids written `overdue`, in the order the writes are issued. */
  method RenderResidentList(db: Store.Backend, usersOk: bool, replies: string -> Store.Replies, clock: Clock)
    returns (rendered: Option<seq<RowView>>, writes: seq<string>)
    requires clock.Valid()
    ensures var residents := Residents(Store.GetUsers(db, usersOk));
            var lookups := LookupsFor(residents, db, replies);
            (rendered.None? <==> AnyCrashed(lookups))
            && (rendered.Some? ==> rendered.value == ExpectedRows(residents, lookups, clock)
                                   && writes == ExpectedWrites(residents, lookups, clock))
            && (rendered.None? ==> writes == [])
  {
    var residents := Residents(Store.GetUsers(db, usersOk));
    var lookups := LookupsFor(residents, db, replies);
    writes := [];
    if AnyCrashed(lookups) {
      return None, writes;
    }
    var html: seq<RowView> := [];
    var i := 0;
    while i < |residents|
      invariant 0 <= i <= |residents|
      invariant html == ExpectedRows(residents[..i], lookups[..i], clock)
      invariant writes == ExpectedWrites(residents[..i], lookups[..i], clock)
    {
      RenderStep(residents, lookups, i, clock);
      var row, written := RenderRow(residents[i], lookups[i], clock);
      if written {
        writes := writes + [residents[i].id];
      }
      if row.Some? {
        html := html + [row.value];
      }
      i := i + 1;
    }
    assert residents[..i] == residents && lookups[..i] == lookups;
    rendered := Some(html);
  }

  /** The body of the render loop for one resident: a resident without a
      profile is skipped; otherwise a `pending` profile past its due date is
      written `overdue` first, and the row shows the status after that check. */
  method RenderRow(user: Store.ProfileRow, lookup: Store.Lookup, clock: Clock)
    returns (row: Option<RowView>, written: bool)
    requires clock.Valid()
    ensures row == (if lookup.Found? then Some(RowOf(user, lookup.profile, clock)) else None)
    ensures written == Transitions(lookup, clock)
  {
    row, written := None, false;
    if lookup.Found? {
      var profile := lookup.profile;
      var status := profile.paymentStatus;
      if status == "pending" && PastDue(clock, NormalizeDueDate(profile.nextPaymentDate, clock)) {
        status := "overdue";
        written := true;
      }
      row := Some(RowView(user.id, user.username, profile.alias, StatusText(status), StatusColor(status),
                          OrElse(profile.nextPaymentDate, "N/A"), HasUnread(profile), status == "overdue"));
    }
  }

  /** One step of the render loop: the rows and writes of the first `i + 1`
      residents extend those of the first `i`. */
  lemma RenderStep(users: seq<Store.ProfileRow>, lookups: seq<Store.Lookup>, i: nat, clock: Clock)
    requires |users| == |lookups| && i < |users| && clock.Valid()
    ensures ExpectedRows(users[..i + 1], lookups[..i + 1], clock)
            == ExpectedRows(users[..i], lookups[..i], clock)
               + (if lookups[i].Found? then [RowOf(users[i], lookups[i].profile, clock)] else [])
    ensures ExpectedWrites(users[..i + 1], lookups[..i + 1], clock)
            == ExpectedWrites(users[..i], lookups[..i], clock) + (if Transitions(lookups[i], clock) then [users[i].id] else [])
  {
    assert users[..i + 1][..i] == users[..i] && lookups[..i + 1][..i] == lookups[..i];
  }

  /** Once the admin has opened a resident's chat (which marks the resident's
      messages read), the resident's row shows no unread marker. */
  lemma OpenChatClearsMarker(db: Store.Backend, userId: string, replies: Store.Replies)
    requires Store.GetProfile(Store.MarkMessagesRead(db, userId, "resident"), userId, replies).Found?
    ensures !HasUnread(Store.GetProfile(Store.MarkMessagesRead(db, userId, "resident"), userId, replies).profile)
  {
    Store.MarkReadClearsUnread(db, userId, "resident", replies);
  }

  // ---------------------------------------------------------------------------
  // saveHistoryItem: re-deriving the profile from the newest history row

  /** The status the newest history row gives the profile: its own status, a
      `pending` one promoted to `overdue` once its date has ended. */
  function SyncStatus(latest: Store.HistoryItem, clock: Clock): string {
    if latest.status == "pending" && PastDue(clock, latest.date) then "overdue" else latest.status
  }

  /** For an ISO date the sync and the list agree on the status: both apply the
      same end-of-day rule. */
  lemma SyncAgreesWithList(latest: Store.HistoryItem, clock: Clock)
    requires clock.Valid() && IsIsoShape(latest.date)
    ensures SyncStatus(latest, clock) == ApplyOverdue(latest.status, Some(latest.date), clock)
  {
    NormalizeIsoAndMissing(latest.date, clock);
  }

  /** What the sync block does: nothing when the history is empty, a failure
      when the reloaded profile is missing or its date cannot be moved on (the
      handler throws before any write), or the update object it sends. */
  datatype SyncResult = NoSync | SyncFailed | SyncUpdate(updates: map<string, JsValue>)

  /** The sync block of `saveHistoryItem`, given the `histId` field (`""` for a
      new row), the profile reloaded after the save, and the Spanish date
      formatter (locale data, hence a parameter). The next due date is the one
      `getNextMonthDate` prints, i.e. the UTC date of local midnight. */
  function SyncUpdates(editId: string, reloaded: Store.Lookup, clock: Clock, spanish: string -> string): (r: SyncResult)
    requires clock.Valid()
    ensures !reloaded.Found? ==> r == SyncFailed
    ensures reloaded.Found? && reloaded.profile.paymentHistory == [] ==> r == NoSync
    ensures r.SyncUpdate? ==>
      var latest := reloaded.profile.paymentHistory[0];
      "paymentStatus" in r.updates && r.updates["paymentStatus"] == Str(SyncStatus(latest, clock))
      && ("nextPaymentDate" in r.updates <==> editId == "")
      && (editId == "" ==> NextMonthDateAsWritten(latest.date, clock.offsetMs).Some?
                           && r.updates["nextPaymentDate"]
                              == Str(spanish(NextMonthDateAsWritten(latest.date, clock.offsetMs).value)))
      && r.updates.Keys <= {"paymentStatus", "nextPaymentDate"}
    ensures r == SyncFailed <==>
              (!reloaded.Found?
               || (reloaded.profile.paymentHistory != [] && editId == ""
                   && NextMonthDateAsWritten(reloaded.profile.paymentHistory[0].date, clock.offsetMs).None?))
  {
    if !reloaded.Found? then SyncFailed
    else if reloaded.profile.paymentHistory == [] then NoSync
    else
      var latest := reloaded.profile.paymentHistory[0];
      var status := map["paymentStatus" := Str(SyncStatus(latest, clock))];
      if editId != "" then SyncUpdate(status)
      else
        match NextMonthDateAsWritten(latest.date, clock.offsetMs)
        case None => SyncFailed
        case Some(next) => SyncUpdate(status["nextPaymentDate" := Str(spanish(next))])
  }

  /** The sync block as the handler runs it, building `updates` field by
      field. */
  method BuildSyncUpdates(editId: string, reloaded: Store.Lookup, clock: Clock, spanish: string -> string)
    returns (r: SyncResult)
    requires clock.Valid()
    ensures r == SyncUpdates(editId, reloaded, clock, spanish)
  {
    if !reloaded.Found? {
      return SyncFailed;
    }
    var history := reloaded.profile.paymentHistory;
    if |history| == 0 {
      return NoSync;
    }
    var latest := history[0];
    var finalStatus := latest.status;
    if finalStatus == "pending" {
      if PastDue(clock, latest.date) {
        finalStatus := "overdue";
      }
    }
    var updates := map["paymentStatus" := Str(finalStatus)];
    if editId == "" {
      var next := NextMonthDateAsWritten(latest.date, clock.offsetMs);
      if next.None? {
        return SyncFailed;
      }
      updates := updates["nextPaymentDate" := Str(spanish(next.value))];
    }
    return SyncUpdate(updates);
  }

  /** Saving a new history row that is newer than every other, at or west of
      UTC: the profile takes that row's status (promoted to `overdue` if its
      date has ended) and its next due date is one month after the row's
      local date. */
  lemma SyncAfterInsert(db: Store.Backend, userId: string, item: Store.HistoryFields, id: int, createdAt: int,
                        replies: Store.Replies, clock: Clock, spanish: string -> string)
    requires clock.Valid() && clock.offsetMs >= 0
    requires forall k :: 0 <= k < |db.history| && db.history[k].userId == userId ==> db.history[k].createdAt < createdAt
    requires Store.GetProfile(db, userId, replies).Found?
    requires NextMonthDate(item.date).Some?
    ensures var r := SyncUpdates("", Store.GetProfile(Store.AddHistoryItem(db, userId, item, id, createdAt), userId, replies), clock, spanish);
            r.SyncUpdate?
            && r.updates == map["paymentStatus" := Str(if item.status == "pending" && PastDue(clock, item.date) then "overdue" else item.status),
                                "nextPaymentDate" := Str(spanish(NextMonthDate(item.date).value))]
  {
    Store.AddHistoryBecomesFirst(db, userId, item, id, createdAt, replies);
    var reloaded := Store.GetProfile(Store.AddHistoryItem(db, userId, item, id, createdAt), userId, replies);
    var latest := Store.HistoryItem(id, item.period, item.amount, item.status, item.date, createdAt);
    assert reloaded.Found? && reloaded.profile.paymentHistory != [] && reloaded.profile.paymentHistory[0] == latest;
    NextMonthWestOfUtc(item.date, clock.offsetMs);
    SyncOfLatest(reloaded, latest, clock, spanish);
  }

  /** The sync of a new row, given the row the reloaded profile lists first. */
  lemma SyncOfLatest(reloaded: Store.Lookup, latest: Store.HistoryItem, clock: Clock, spanish: string -> string)
    requires clock.Valid()
    requires reloaded.Found? && reloaded.profile.paymentHistory != []
    requires reloaded.profile.paymentHistory[0] == latest && NextMonthDateAsWritten(latest.date, clock.offsetMs).Some?
    ensures SyncUpdates("", reloaded, clock, spanish)
            == SyncUpdate(map["paymentStatus" := Str(SyncStatus(latest, clock)),
                              "nextPaymentDate" := Str(spanish(NextMonthDateAsWritten(latest.date, clock.offsetMs).value))])
  {
  }

  // ---------------------------------------------------------------------------
  // Messages the admin sends

  /** The admin chat form: the trimmed text is sent to the open chat when it is
      not empty and a chat is open. */
  function AdminChatSend(input: string, currentChatUserId: Option<string>): (r: Option<(string, string)>)
    ensures r.Some? <==> Trim(input) != "" && Present(currentChatUserId)
    ensures r.Some? ==> r.value == (currentChatUserId.value, Trim(input))
  {
    var text := Trim(input);
    if text != "" && Present(currentChatUserId) then Some((currentChatUserId.value, text)) else None
  }

  /** A sent chat text is never blank and has no white space at either end. */
  lemma AdminChatSendTrimmed(input: string, currentChatUserId: Option<string>)
    requires AdminChatSend(input, currentChatUserId).Some?
    ensures var t := AdminChatSend(input, currentChatUserId).value.1;
            t != "" && !IsSpace(t[0]) && !IsSpace(t[|t| - 1])
            && exists i :: 0 <= i < |input| && !IsSpace(input[i])
  {
    TrimEmptyIff(input);
  }

  /** The two fixed parts of the overdue notice, before and after the name. */
  const WarningGreeting: string := "⚠️ AVISO DE PAGO VENCIDO: Estimado residente "
  const WarningBody: string := ", le informamos que su servicio presenta un pago vencido. Favor de regularizar su situación."

  /** The text of the overdue notice. */
  function OverdueWarning(name: string): string {
    WarningGreeting + name + WarningBody
  }

  /** `notifyOverdue(userId)` once confirmed: the notice addressed to the alias,
      or to the username when the alias is empty. `None` when the handler
      throws: no profile, or no user row while the alias is empty (the user row
      is always looked up but used only then). */
  function NotifyOverdue(profile: Store.Lookup, user: Option<Store.ProfileRow>): (r: Option<string>)
    ensures r.Some? <==> profile.Found? && (profile.profile.alias != "" || user.Some?)
    ensures r.Some? && profile.profile.alias != "" ==> r.value == OverdueWarning(profile.profile.alias)
    ensures r.Some? && profile.profile.alias == "" ==> r.value == OverdueWarning(user.value.username)
  {
    if !profile.Found? then None
    else if profile.profile.alias != "" then Some(OverdueWarning(profile.profile.alias))
    else if user.Some? then Some(OverdueWarning(user.value.username))
    else None
  }

  // ---------------------------------------------------------------------------
  // checkNewMessages

  /** The number of messages counted over some profile lookups. */
  function MessageTotal(lookups: seq<Store.Lookup>): (r: nat) {
    if lookups == [] then 0
    else
      var n := |lookups| - 1;
      MessageTotal(lookups[..n]) + (if lookups[n].Found? then |lookups[n].profile.messages| else 0)
  }

  /** The total over the first `i + 1` lookups extends that over the first `i`. */
  lemma TotalStep(lookups: seq<Store.Lookup>, i: nat)
    requires i < |lookups|
    ensures MessageTotal(lookups[..i + 1])
            == MessageTotal(lookups[..i]) + (if lookups[i].Found? then |lookups[i].profile.messages| else 0)
  {
    assert lookups[..i + 1][..i] == lookups[..i];
  }

  /** The module-level state of the admin page. */
  class AdminView {
    var currentManagerUserId: Option<string>
    var currentChatUserId: Option<string>
    var lastTotalMessages: nat
    var isFirstLoad: bool

    constructor ()
      ensures currentManagerUserId.None? && currentChatUserId.None?
      ensures lastTotalMessages == 0 && isFirstLoad
    {
      currentManagerUserId := None;
      currentChatUserId := None;
      lastTotalMessages := 0;
      isFirstLoad := true;
    }

    /** `openManager(userId)` and `openChat(userId)` record the user first. */
    method OpenManager(userId: string)
      modifies this
      ensures currentManagerUserId == Some(userId)
      ensures currentChatUserId == old(currentChatUserId)
      ensures lastTotalMessages == old(lastTotalMessages) && isFirstLoad == old(isFirstLoad)
    {
      currentManagerUserId := Some(userId);
    }

    method OpenChat(userId: string)
      modifies this
      ensures currentChatUserId == Some(userId)
      ensures currentManagerUserId == old(currentManagerUserId)
      ensures lastTotalMessages == old(lastTotalMessages) && isFirstLoad == old(isFirstLoad)
    {
      currentChatUserId := Some(userId);
    }

    /** `closeModal('managerModal')` once its timer has run. */
    method CloseManager()
      modifies this
      ensures currentManagerUserId.None?
      ensures currentChatUserId == old(currentChatUserId)
      ensures lastTotalMessages == old(lastTotalMessages) && isFirstLoad == old(isFirstLoad)
    {
      currentManagerUserId := None;
    }

    /** `closeChat()`. */
    method CloseChat()
      modifies this
      ensures currentChatUserId.None?
      ensures currentManagerUserId == old(currentManagerUserId)
      ensures lastTotalMessages == old(lastTotalMessages) && isFirstLoad == old(isFirstLoad)
    {
      currentChatUserId := None;
    }

    /** `checkNewMessages()`: a failed lookup ends the poll with nothing
        changed. Otherwise a notice fires when this is not the first poll and
        the total went up, the open chat is redrawn with it, and the total and
        the flag are stored. */
    method CheckNewMessages(db: Store.Backend, usersOk: bool, replies: string -> Store.Replies)
      returns (notice: bool, redrawChat: bool)
      modifies this
      ensures var lookups := LookupsFor(Residents(Store.GetUsers(db, usersOk)), db, replies);
              if AnyCrashed(lookups) then
                !notice && !redrawChat
                && lastTotalMessages == old(lastTotalMessages) && isFirstLoad == old(isFirstLoad)
              else
                notice == (!old(isFirstLoad) && MessageTotal(lookups) > old(lastTotalMessages))
                && redrawChat == (notice && Present(currentChatUserId))
                && lastTotalMessages == MessageTotal(lookups) && !isFirstLoad
      ensures currentChatUserId == old(currentChatUserId) && currentManagerUserId == old(currentManagerUserId)
    {
      var residents := Residents(Store.GetUsers(db, usersOk));
      var count, crashed := CountMessages(db, residents, replies);
      if crashed {
        return false, false;
      }
      notice := !isFirstLoad && count > lastTotalMessages;
      redrawChat := notice && Present(currentChatUserId);
      lastTotalMessages := count;
      isFirstLoad := false;
    }
  }

  /** The counting loop of `checkNewMessages()`: the profiles are fetched one
      at a time and their messages summed; a lookup that rejects ends the
      loop. */
  method CountMessages(db: Store.Backend, residents: seq<Store.ProfileRow>, replies: string -> Store.Replies)
    returns (count: nat, crashed: bool)
    ensures crashed <==> AnyCrashed(LookupsFor(residents, db, replies))
    ensures !crashed ==> count == MessageTotal(LookupsFor(residents, db, replies))
  {
    ghost var lookups := LookupsFor(residents, db, replies);
    count := 0;
    var i := 0;
    while i < |residents|
      invariant 0 <= i <= |residents|
      invariant count == MessageTotal(lookups[..i])
      invariant forall k :: 0 <= k < i ==> !lookups[k].Crashed?
    {
      TotalStep(lookups, i);
      var p := Store.GetProfile(db, residents[i].id, replies(residents[i].id));
      assert p == lookups[i];
      if p.Crashed? {
        assert lookups[i].Crashed? && AnyCrashed(lookups);
        return 0, true;
      }
      if p.Found? {
        count := count + |p.profile.messages|;
      }
      i := i + 1;
    }
    assert lookups[..i] == lookups;
    assert !AnyCrashed(lookups);
    crashed := false;
  }

  /** How many of the residents have the given id. */
  function Occurrences(residents: seq<Store.ProfileRow>, userId: string): (r: nat)
    ensures (exists k :: 0 <= k < |residents| && residents[k].id == userId) ==> r > 0
  {
    if residents == [] then 0
    else
      var n := |residents| - 1;
      assert forall k :: 0 <= k < n ==> residents[..n][k] == residents[k];
      Occurrences(residents[..n], userId) + (if residents[n].id == userId then 1 else 0)
  }

  /** A message the admin sends to a resident raises the total the poll
      counts, so the next poll announces "Nuevo mensaje recibido." for the
      admin's own message. */
  lemma OwnMessageRaisesTotal(db: Store.Backend, residents: seq<Store.ProfileRow>, replies: string -> Store.Replies,
                              userId: string, text: string, id: int, createdAt: int)
    requires forall k :: 0 <= k < |db.messages| && db.messages[k].userId == userId ==> db.messages[k].createdAt < createdAt
    requires exists k :: 0 <= k < |residents| && residents[k].id == userId
    requires Store.GetProfile(db, userId, replies(userId)).Found?
    ensures MessageTotal(LookupsFor(residents, Store.AddMessage(db, userId, "admin", text, id, createdAt), replies))
            > MessageTotal(LookupsFor(residents, db, replies))
  {
    TotalAfterAdd(db, residents, replies, userId, "admin", text, id, createdAt);
  }

  /** Adding one message to a user raises the total by the number of times
      that user is counted, and leaves it as it was when the user has no
      profile. */
  lemma {:induction false} TotalAfterAdd(db: Store.Backend, residents: seq<Store.ProfileRow>, replies: string -> Store.Replies,
                                         userId: string, from: string, text: string, id: int, createdAt: int)
    requires forall k :: 0 <= k < |db.messages| && db.messages[k].userId == userId ==> db.messages[k].createdAt < createdAt
    ensures MessageTotal(LookupsFor(residents, Store.AddMessage(db, userId, from, text, id, createdAt), replies))
            == MessageTotal(LookupsFor(residents, db, replies))
               + (if Store.GetProfile(db, userId, replies(userId)).Found? then Occurrences(residents, userId) else 0)
  {
    var db2 := Store.AddMessage(db, userId, from, text, id, createdAt);
    if residents != [] {
      var n := |residents| - 1;
      var init := residents[..n];
      TotalAfterAdd(db, init, replies, userId, from, text, id, createdAt);
      var l1 := LookupsFor(residents, db, replies);
      var l2 := LookupsFor(residents, db2, replies);
      assert l1[..n] == LookupsFor(init, db, replies);
      assert l2[..n] == LookupsFor(init, db2, replies);
      var u := residents[n].id;
      OneProfileAfterAdd(db, u, replies(u), userId, from, text, id, createdAt);
    }
  }

  /** One resident's lookup after a message is added: the same outcome, with
      one more message when the message is theirs. */
  lemma OneProfileAfterAdd(db: Store.Backend, u: string, replies: Store.Replies,
                           userId: string, from: string, text: string, id: int, createdAt: int)
    requires forall k :: 0 <= k < |db.messages| && db.messages[k].userId == userId ==> db.messages[k].createdAt < createdAt
    ensures var before := Store.GetProfile(db, u, replies);
            var after := Store.GetProfile(Store.AddMessage(db, userId, from, text, id, createdAt), u, replies);
            after.Found? == before.Found? && after.Crashed? == before.Crashed?
            && (before.Found? ==> |after.profile.messages| == |before.profile.messages| + (if u == userId then 1 else 0))
  {
    var db2 := Store.AddMessage(db, userId, from, text, id, createdAt);
    if Store.GetProfile(db, u, replies).Found? {
      if u == userId {
        Store.AddMessageShowsLast(db, userId, from, text, id, createdAt, replies);
      } else {
        assert db2.messages[..|db2.messages| - 1] == db.messages;
        assert Store.MessagesOf(db2.messages, u) == Store.MessagesOf(db.messages, u);
      }
    }
  }

  /** Counting only the residents' own messages, as a poll for incoming
      messages would. */
  function ResidentMessageCount(ms: seq<Store.Message>): (r: nat)
    ensures r <= |ms|
  {
    if ms == [] then 0
    else ResidentMessageCount(ms[..|ms| - 1]) + (if ms[|ms| - 1].from == "resident" then 1 else 0)
  }

  /** A message the admin sends leaves that count unchanged, and one the
      resident sends raises it by one. */
  lemma ResidentCountIgnoresAdmin(db: Store.Backend, userId: string, from: string, text: string, id: int, createdAt: int,
                                  replies: Store.Replies)
    requires forall k :: 0 <= k < |db.messages| && db.messages[k].userId == userId ==> db.messages[k].createdAt < createdAt
    requires Store.GetProfile(db, userId, replies).Found?
    ensures var before := Store.GetProfile(db, userId, replies).profile.messages;
            var after := Store.GetProfile(Store.AddMessage(db, userId, from, text, id, createdAt), userId, replies).profile.messages;
            ResidentMessageCount(after) == ResidentMessageCount(before) + (if from == "resident" then 1 else 0)
  {
    Store.AddMessageShowsLast(db, userId, from, text, id, createdAt, replies);
    var before := Store.GetProfile(db, userId, replies).profile.messages;
    var after := before + [Store.Message(id, text, from, createdAt, false)];
    assert after[..|after| - 1] == before;
  }
}
