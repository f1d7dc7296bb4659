/** The WiFi panel shared by the admin manager (admin.js:198-211) and the
    resident dashboard (dashboard.js:47-70): the credentials and the QR code are
    shown only when both the network name and the password are set, and the QR
    code carries the `WIFI:` payload of the ZXing "wifi network config" format,
    `WIFI:S:<ssid>;T:WPA;P:<password>;;`. */
module WifiQr {
  import opened Js

  /** `if (ssid && pass)`. */
  predicate ShowsWifi(ssid: Option<string>, pass: Option<string>) {
    Present(ssid) && Present(pass)
  }

  /** The payload as the portal writes it: the two values are pasted in as they
      are. */
  function QrPayload(ssid: string, pass: string): string {
    "WIFI:S:" + ssid + ";T:WPA;P:" + pass + ";;"
  }

  /** The QR payload the panel shows, or `None` when the placeholder is shown
      instead. */
  function WifiQrCode(ssid: Option<string>, pass: Option<string>): (r: Option<string>)
    ensures r.Some? <==> ShowsWifi(ssid, pass)
    ensures r.Some? ==> r.value == QrPayload(ssid.value, pass.value)
  {
    if ShowsWifi(ssid, pass) then Some(QrPayload(ssid.value, pass.value)) else None
  }

  // ---------------------------------------------------------------------------
  // Reading a payload back

  /** The characters the format reserves; inside a value they must be written
      with a backslash in front. */
  predicate IsSpecial(c: char) {
    c == '\\' || c == ';' || c == ',' || c == '"' || c == ':'
  }

  predicate NoSpecials(s: string) { forall i :: 0 <= i < |s| ==> !IsSpecial(s[i]) }

  /** One field value up to its first unescaped `;`: the value with the escapes
      removed, and what follows the `;`. */
  function ReadField(s: string): (r: Option<(string, string)>)
    ensures r.Some? ==> |r.value.1| < |s|
  {
    if s == [] then None
    else if s[0] == ';' then Some(([], s[1..]))
    else if s[0] == '\\' then
      if |s| < 2 then None
      else
        match ReadField(s[2..])
        case Some((v, rest)) => Some(([s[1]] + v, rest))
        case None => None
    else
      match ReadField(s[1..])
      case Some((v, rest)) => Some(([s[0]] + v, rest))
      case None => None
  }

  /** A scanner reading `WIFI:S:<ssid>;T:WPA;P:<password>;;` back into its two
      values. */
  function DecodeQr(p: string): Option<(string, string)> {
    if |p| < 7 || p[..7] != "WIFI:S:" then None
    else
      match ReadField(p[7..])
      case None => None
      case Some((ssid, r1)) =>
        if |r1| < 8 || r1[..8] != "T:WPA;P:" then None
        else
          match ReadField(r1[8..])
          case None => None
          case Some((pass, r2)) => if r2 == ";" then Some((ssid, pass)) else None
  }

  // ---------------------------------------------------------------------------
  // Escaped payload

  /** A value with a backslash put before each reserved character. */
  function Escape(s: string): (r: string)
    ensures |r| >= |s|
  {
    if s == [] then []
    else (if IsSpecial(s[0]) then ['\\', s[0]] else [s[0]]) + Escape(s[1..])
  }

  /** The payload with both values escaped. */
  function EscapedQrPayload(ssid: string, pass: string): string {
    "WIFI:S:" + Escape(ssid) + ";T:WPA;P:" + Escape(pass) + ";;"
  }

  /** An escaped value is read back whole, up to the `;` that ends it. */
  lemma {:induction false} ReadEscapedField(v: string, rest: string)
    ensures ReadField(Escape(v) + ";" + rest) == Some((v, rest))
  {
    if v == [] {
      assert Escape(v) + ";" + rest == [';'] + rest;
    } else {
      var tail := Escape(v[1..]) + ";" + rest;
      ReadEscapedField(v[1..], rest);
      assert [v[0]] + v[1..] == v;
      if IsSpecial(v[0]) {
        assert Escape(v) + ";" + rest == ['\\', v[0]] + tail by {
          assert Escape(v) == ['\\', v[0]] + Escape(v[1..]);
        }
        ReadFieldEscaped(v[0], tail, v[1..], rest);
      } else {
        assert Escape(v) + ";" + rest == [v[0]] + tail by {
          assert Escape(v) == [v[0]] + Escape(v[1..]);
        }
        ReadFieldPlain(v[0], tail, v[1..], rest);
      }
    }
  }

  /** A backslash takes the next character into the value as it is. */
  lemma ReadFieldEscaped(c: char, tail: string, w: string, rest: string)
    requires ReadField(tail) == Some((w, rest))
    ensures ReadField(['\\', c] + tail) == Some(([c] + w, rest))
  {
    assert (['\\', c] + tail)[2..] == tail;
  }

  /** Any other character except `;` is taken into the value. */
  lemma ReadFieldPlain(c: char, tail: string, w: string, rest: string)
    requires c != ';' && c != '\\' && ReadField(tail) == Some((w, rest))
    ensures ReadField([c] + tail) == Some(([c] + w, rest))
  {
    assert ([c] + tail)[1..] == tail;
  }

  /** The escaped payload is the prefix, the escaped name and `;`, then the
      rest. */
  lemma EscapedPayloadShape(ssid: string, pass: string)
    ensures var p := EscapedQrPayload(ssid, pass);
            |p| >= 7 && p[..7] == "WIFI:S:" && p[7..] == Escape(ssid) + ";" + ("T:WPA;P:" + Escape(pass) + ";;")
  {
    var r1 := "T:WPA;P:" + Escape(pass) + ";;";
    assert EscapedQrPayload(ssid, pass) == "WIFI:S:" + (Escape(ssid) + ";" + r1);
  }

  /** The rest after the name: the type and password keys, the escaped
      password, and the two closing `;`. */
  lemma EscapedRestShape(pass: string)
    ensures var r1 := "T:WPA;P:" + Escape(pass) + ";;";
            |r1| >= 8 && r1[..8] == "T:WPA;P:" && r1[8..] == Escape(pass) + ";" + ";"
  {
  }

  /** Every pair of values is read back from its escaped payload. */
  lemma EscapedPayloadRoundTrip(ssid: string, pass: string)
    ensures DecodeQr(EscapedQrPayload(ssid, pass)) == Some((ssid, pass))
  {
    var r1 := "T:WPA;P:" + Escape(pass) + ";;";
    EscapedPayloadShape(ssid, pass);
    EscapedRestShape(pass);
    ReadEscapedField(ssid, r1);
    ReadEscapedField(pass, ";");
  }

  /** So two different pairs of values never share an escaped payload. */
  lemma EscapedPayloadInjective(s1: string, p1: string, s2: string, p2: string)
    requires EscapedQrPayload(s1, p1) == EscapedQrPayload(s2, p2)
    ensures s1 == s2 && p1 == p2
  {
    EscapedPayloadRoundTrip(s1, p1);
    EscapedPayloadRoundTrip(s2, p2);
  }

  /** Escaping changes nothing in a value without reserved characters. */
  lemma {:induction false} EscapePlain(s: string)
    requires NoSpecials(s)
    ensures Escape(s) == s
  {
    if s != [] {
      EscapePlain(s[1..]);
      assert [s[0]] + s[1..] == s;
    }
  }

  /** For values without reserved characters the two payloads agree, so the
      payload as written is read back correctly. */
  lemma PlainPayloadRoundTrip(ssid: string, pass: string)
    requires NoSpecials(ssid) && NoSpecials(pass)
    ensures QrPayload(ssid, pass) == EscapedQrPayload(ssid, pass)
    ensures DecodeQr(QrPayload(ssid, pass)) == Some((ssid, pass))
  {
    EscapePlain(ssid);
    EscapePlain(pass);
    EscapedPayloadRoundTrip(ssid, pass);
  }

  /** Without escaping, a network name holding `;T:WPA;P:` gives the same QR
      code as a different network and password. */
  lemma UnescapedPayloadCollides()
    ensures QrPayload("a;T:WPA;P:b", "c") == QrPayload("a", "b;T:WPA;P:c")
  {
    assert QrPayload("a;T:WPA;P:b", "c") == "WIFI:S:a;T:WPA;P:b;T:WPA;P:c;;";
    assert QrPayload("a", "b;T:WPA;P:c") == "WIFI:S:a;T:WPA;P:b;T:WPA;P:c;;";
  }

  /** With escaping the two pairs above get different QR codes. */
  lemma EscapedPayloadSeparates()
    ensures EscapedQrPayload("a;T:WPA;P:b", "c") != EscapedQrPayload("a", "b;T:WPA;P:c")
  {
    var x, y := "a;T:WPA;P:b", "a";
    assert |x| != |y|;
    EscapedPayloadRoundTrip(x, "c");
    EscapedPayloadRoundTrip(y, "b;T:WPA;P:c");
  }
}
