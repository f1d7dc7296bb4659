/** The resident dashboard (dashboard.js): the status badge, the sent/received
    split of the chat, the message form, the WiFi panel and the poll that
    announces new messages from the administration. */
module Dashboard {
  import opened Js
  import opened PaymentStatus
  import WifiQr
  import Store

  // ---------------------------------------------------------------------------
  // Status badge

  /** `getStatusClass(status)`. */
  function StatusClass(status: string): (r: string)
    ensures r == "status-paid" || r == "status-pending" || r == "status-error"
    ensures r == "status-paid" <==> status == "paid"
    ensures r == "status-pending" <==> status == "pending"
  {
    if status == "paid" then "status-paid"
    else if status == "pending" then "status-pending"
    else "status-error"
  }

  /** The badge's class and its text always tell the same story. */
  lemma BadgeAgrees(status: string)
    ensures StatusClass(status) == "status-paid" <==> StatusText(status) == "Pagado"
    ensures StatusClass(status) == "status-pending" <==> StatusText(status) == "Pendiente"
    ensures StatusClass(status) == "status-error" <==> StatusText(status) == "Vencido"
  {
  }

  // ---------------------------------------------------------------------------
  // Chat

  /** A message is drawn on the resident's side exactly when the
      administration did not write it. */
  predicate IsSent(m: Store.Message) {
    m.from != "admin"
  }

  /** The heading of a message bubble. */
  function SenderLabel(m: Store.Message): (r: string)
    ensures r == "Tú" <==> IsSent(m)
    ensures r == "Administración" <==> m.from == "admin"
  {
    if IsSent(m) then "Tú" else "Administración"
  }

  /** The message form: the trimmed text is sent when it is not empty. */
  function ResidentSend(input: string): (r: Option<string>)
    ensures r.Some? <==> exists i :: 0 <= i < |input| && !IsSpace(input[i])
    ensures r.Some? ==> r.value == Trim(input) && r.value != ""
  {
    TrimEmptyIff(input);
    var text := Trim(input);
    if text != "" then Some(text) else None
  }

  /** A message the resident sends is stored from `resident`, unread, and, as
      the newest message, is drawn last and on the resident's side. */
  lemma ResidentMessageShowsAsSent(db: Store.Backend, userId: string, input: string, id: int, createdAt: int,
                                   replies: Store.Replies)
    requires ResidentSend(input).Some?
    requires forall k :: 0 <= k < |db.messages| && db.messages[k].userId == userId ==> db.messages[k].createdAt < createdAt
    requires Store.GetProfile(db, userId, replies).Found?
    ensures var after := Store.GetProfile(Store.AddMessage(db, userId, "resident", ResidentSend(input).value, id, createdAt), userId, replies);
            after.Found? && after.profile.messages != []
            && var m := after.profile.messages[|after.profile.messages| - 1];
            IsSent(m) && m.text == Trim(input) && !m.read
  {
    Store.AddMessageShowsLast(db, userId, "resident", ResidentSend(input).value, id, createdAt, replies);
  }

  // ---------------------------------------------------------------------------
  // WiFi panel

  /** What the WiFi card shows. */
  datatype WifiPanel = WifiPanel(ssidText: string, passText: string, qrPayload: Option<string>)

  /** `updateWifiDisplay(ssid, pass)`. */
  function WifiDisplay(ssid: Option<string>, pass: Option<string>): (r: WifiPanel)
    ensures r.qrPayload == WifiQr.WifiQrCode(ssid, pass)
    ensures WifiQr.ShowsWifi(ssid, pass) ==> r.ssidText == ssid.value && r.passText == pass.value
    ensures !WifiQr.ShowsWifi(ssid, pass) ==> r.ssidText == "Pendiente de configurar" && r.passText == "••••••••"
  {
    if WifiQr.ShowsWifi(ssid, pass) then WifiPanel(ssid.value, pass.value, WifiQr.WifiQrCode(ssid, pass))
    else WifiPanel("Pendiente de configurar", "••••••••", None)
  }

  /** With one of the two credentials missing or empty, neither the password
      nor a QR code is shown. */
  lemma WifiHiddenUntilComplete(ssid: Option<string>, pass: Option<string>)
    requires !Present(ssid) || !Present(pass)
    ensures WifiDisplay(ssid, pass).qrPayload.None?
    ensures WifiDisplay(ssid, pass).passText == "••••••••"
  {
  }

  // ---------------------------------------------------------------------------
  // checkNewMessages

  /** `messages.filter(m => m.from === 'admin')`. */
  function AdminOnly(ms: seq<Store.Message>): (r: seq<Store.Message>)
    ensures forall k :: 0 <= k < |r| ==> r[k].from == "admin"
    ensures |r| <= |ms|
  {
    if ms == [] then []
    else
      var n := |ms| - 1;
      var rest := AdminOnly(ms[..n]);
      rest + (if ms[n].from == "admin" then [ms[n]] else [])
  }

  /** The filter is empty exactly when no message is from the administration. */
  lemma {:induction false} AdminOnlyEmpty(ms: seq<Store.Message>)
    ensures AdminOnly(ms) == [] <==> forall j :: 0 <= j < |ms| ==> ms[j].from != "admin"
  {
    if ms != [] {
      var n := |ms| - 1;
      AdminOnlyEmpty(ms[..n]);
      forall j | 0 <= j < n ensures ms[..n][j] == ms[j] {
      }
    }
  }

  /** Index `j` holds a message from the administration and none follows it. */
  predicate LastFromAdmin(ms: seq<Store.Message>, j: int) {
    0 <= j < |ms| && ms[j].from == "admin" && forall j' :: j < j' < |ms| ==> ms[j'].from != "admin"
  }

  /** A message not from the administration appended after the last one from
      it leaves that one last. */
  lemma LastFromAdminExtend(ms: seq<Store.Message>, j: int)
    requires ms != [] && ms[|ms| - 1].from != "admin" && LastFromAdmin(ms[..|ms| - 1], j)
    ensures LastFromAdmin(ms, j) && ms[j] == ms[..|ms| - 1][j]
  {
    var n := |ms| - 1;
    forall j' | j < j' < |ms| ensures ms[j'].from != "admin" {
      if j' < n {
        assert ms[..n][j'] == ms[j'];
      }
    }
  }

  /** When it is not empty, its last element is the last message from the
      administration. */
  lemma {:induction false} AdminOnlyLast(ms: seq<Store.Message>)
    requires AdminOnly(ms) != []
    ensures exists j :: LastFromAdmin(ms, j) && ms[j] == AdminOnly(ms)[|AdminOnly(ms)| - 1]
  {
    var n := |ms| - 1;
    var rest := AdminOnly(ms[..n]);
    if ms[n].from == "admin" {
      assert LastFromAdmin(ms, n);
      assert ms[n] == AdminOnly(ms)[|AdminOnly(ms)| - 1];
    } else {
      assert AdminOnly(ms) == rest;
      AdminOnlyLast(ms[..n]);
      var j :| LastFromAdmin(ms[..n], j) && ms[..n][j] == rest[|rest| - 1];
      LastFromAdminExtend(ms, j);
    }
  }

  /** The notice one poll shows: on a later poll whose count went up, the text
      of the last new message from the administration, if any. */
  function NoticeFor(ms: seq<Store.Message>, lastCount: nat, firstLoad: bool): Option<string> {
    if !firstLoad && |ms| > lastCount then
      var incoming := AdminOnly(ms[lastCount..]);
      if incoming != [] then Some(incoming[|incoming| - 1].text) else None
    else None
  }

  /** The first poll never notifies. */
  lemma FirstPollSilent(ms: seq<Store.Message>, lastCount: nat)
    ensures NoticeFor(ms, lastCount, true) == None
  {
  }

  /** At most one message from the administration has none after it. */
  lemma LastAdminUnique(ms: seq<Store.Message>, i: int, k: int)
    requires LastFromAdmin(ms, i) && LastFromAdmin(ms, k)
    ensures i == k
  {
  }

  /** The last element of the filtered new messages sits at an index at or past
      the old count, with no message from the administration after it. */
  lemma LastNewAdmin(ms: seq<Store.Message>, lastCount: nat)
    requires |ms| > lastCount && AdminOnly(ms[lastCount..]) != []
    ensures var incoming := AdminOnly(ms[lastCount..]);
            exists j :: lastCount <= j && LastFromAdmin(ms, j) && ms[j] == incoming[|incoming| - 1]
  {
    var newer := ms[lastCount..];
    AdminOnlyLast(newer);
    var j :| LastFromAdmin(newer, j) && newer[j] == AdminOnly(newer)[|AdminOnly(newer)| - 1];
    LastFromAdminShift(ms, lastCount, j);
  }

  /** An index into a suffix that is last from the administration there is last
      in the whole sequence too. */
  lemma LastFromAdminShift(ms: seq<Store.Message>, lastCount: nat, j: int)
    requires lastCount <= |ms| && LastFromAdmin(ms[lastCount..], j)
    ensures LastFromAdmin(ms, lastCount + j) && ms[lastCount + j] == ms[lastCount..][j]
  {
    var newer := ms[lastCount..];
    forall j' | lastCount + j < j' < |ms| ensures ms[j'].from != "admin" {
      assert ms[j'] == newer[j' - lastCount];
    }
  }

  /** An empty filter means no new message is from the administration. */
  lemma NoNewAdmin(ms: seq<Store.Message>, lastCount: nat)
    requires |ms| > lastCount && AdminOnly(ms[lastCount..]) == []
    ensures forall i :: lastCount <= i < |ms| ==> ms[i].from != "admin"
  {
    var newer := ms[lastCount..];
    AdminOnlyEmpty(newer);
    forall i | lastCount <= i < |ms| ensures ms[i].from != "admin" {
      assert ms[i] == newer[i - lastCount];
    }
  }

  /** A later poll shows text `t` exactly when the count went up and `t` is the
      text of a message from the administration at an index at or past the old
      count, after which no message from the administration follows. */
  lemma NoticeMeaning(ms: seq<Store.Message>, lastCount: nat, t: string)
    ensures NoticeFor(ms, lastCount, false) == Some(t) <==>
              |ms| > lastCount
              && exists j :: lastCount <= j < |ms| && ms[j].from == "admin" && ms[j].text == t
                             && forall j' :: j < j' < |ms| ==> ms[j'].from != "admin"
  {
    if |ms| > lastCount {
      var incoming := AdminOnly(ms[lastCount..]);
      if incoming != [] {
        assert NoticeFor(ms, lastCount, false) == Some(incoming[|incoming| - 1].text);
        LastNewAdmin(ms, lastCount);
        var j :| lastCount <= j && LastFromAdmin(ms, j) && ms[j] == incoming[|incoming| - 1];
        forall i | lastCount <= i < |ms| && ms[i].from == "admin"
                   && (forall j' :: i < j' < |ms| ==> ms[j'].from != "admin")
          ensures ms[i].text == incoming[|incoming| - 1].text
        {
          assert LastFromAdmin(ms, i);
          LastAdminUnique(ms, i, j);
        }
      } else {
        assert NoticeFor(ms, lastCount, false) == None;
        NoNewAdmin(ms, lastCount);
      }
    }
  }

  /** The module-level poll state of the dashboard. */
  class ResidentPoller {
    var lastMessageCount: nat
    var isFirstLoad: bool

    constructor ()
      ensures lastMessageCount == 0 && isFirstLoad
    {
      lastMessageCount := 0;
      isFirstLoad := true;
    }

    /** `checkNewMessages()`: without a profile nothing changes; otherwise the
        notice of this poll is shown and the count and the flag are stored,
        also when the count went down. */
    method CheckNewMessages(profile: Store.Lookup) returns (notice: Option<string>)
      modifies this
      ensures !profile.Found? ==>
                notice.None? && lastMessageCount == old(lastMessageCount) && isFirstLoad == old(isFirstLoad)
      ensures profile.Found? ==>
                notice == NoticeFor(profile.profile.messages, old(lastMessageCount), old(isFirstLoad))
                && lastMessageCount == |profile.profile.messages| && !isFirstLoad
    {
      notice := None;
      if !profile.Found? {
        return;
      }
      var messages := profile.profile.messages;
      var currentCount := |messages|;
      if !isFirstLoad && currentCount > lastMessageCount {
        var newMessages := messages[lastMessageCount..];
        var incoming := AdminOnly(newMessages);
        if |incoming| > 0 {
          notice := Some(incoming[|incoming| - 1].text);
        }
      }
      lastMessageCount := currentCount;
      isFirstLoad := false;
    }
  }

  /** A message the administration adds after the resident's last poll (the
      overdue notice, say) is announced by the next poll with its text, while
      one the resident writes is not. */
  lemma NextPollAnnounces(db: Store.Backend, userId: string, from: string, text: string, id: int, createdAt: int,
                          replies: Store.Replies)
    requires forall k :: 0 <= k < |db.messages| && db.messages[k].userId == userId ==> db.messages[k].createdAt < createdAt
    requires Store.GetProfile(db, userId, replies).Found?
    ensures var before := Store.GetProfile(db, userId, replies).profile.messages;
            var after := Store.GetProfile(Store.AddMessage(db, userId, from, text, id, createdAt), userId, replies);
            after.Found?
            && NoticeFor(after.profile.messages, |before|, false) == (if from == "admin" then Some(text) else None)
  {
    Store.AddMessageShowsLast(db, userId, from, text, id, createdAt, replies);
    var before := Store.GetProfile(db, userId, replies).profile.messages;
    var m := Store.Message(id, text, from, createdAt, false);
    var after := before + [m];
    assert after[|before|..] == [m];
    OneNewMessage(after, |before|, m);
  }

  /** With exactly one new message, the poll announces it when, and only when,
      it is from the administration. */
  lemma OneNewMessage(ms: seq<Store.Message>, lastCount: nat, m: Store.Message)
    requires lastCount < |ms| && ms[lastCount..] == [m]
    ensures NoticeFor(ms, lastCount, false) == (if m.from == "admin" then Some(m.text) else None)
  {
    assert [m][..0] == [];
    assert AdminOnly([m]) == (if m.from == "admin" then [m] else []);
  }
}
