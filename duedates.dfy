/** The two date utilities of the admin view (admin.js:411-425):
    `convertDateForInput`, which turns a stored due date (ISO or Spanish long
    form) into `YYYY-MM-DD`, and `getNextMonthDate`, which moves an ISO date one
    calendar month on with the day overflow of the `Date` type. */
module DueDates {
  import opened Js
  import opened Calendar

  // ---------------------------------------------------------------------------
  // The month table and the regular expressions of convertDateForInput

  const MonthNames: seq<string> := ["enero", "febrero", "marzo", "abril", "mayo", "junio",
    "julio", "agosto", "septiembre", "octubre", "noviembre", "diciembre"]

  /** What `${months[word]}` puts in the month slot: the two-digit month number
      for a month name, the text of `Object` for `constructor` (inherited from
      Object.prototype), and `undefined` for any other word. */
  function MonthSlot(word: string): string {
    if word == "enero" then "01" else if word == "febrero" then "02"
    else if word == "marzo" then "03" else if word == "abril" then "04"
    else if word == "mayo" then "05" else if word == "junio" then "06"
    else if word == "julio" then "07" else if word == "agosto" then "08"
    else if word == "septiembre" then "09" else if word == "octubre" then "10"
    else if word == "noviembre" then "11" else if word == "diciembre" then "12"
    else if word == "constructor" then "function Object() { [native code] }"
    else "undefined"
  }

  /** The table maps the m-th month name to m written with two digits. */
  lemma MonthSlotOfName(m: int)
    requires 1 <= m <= 12
    ensures MonthSlot(MonthNames[m - 1]) == Digits(m, 2)
  {
    if m <= 3 {
      MonthSlotFirstQuarter(m);
    } else if m <= 6 {
      MonthSlotSecondQuarter(m);
    } else if m <= 9 {
      MonthSlotThirdQuarter(m);
    } else {
      MonthSlotFourthQuarter(m);
    }
  }

  lemma MonthSlotFirstQuarter(m: int)
    requires 1 <= m <= 3
    ensures MonthSlot(MonthNames[m - 1]) == Digits(m, 2)
  {
    if m == 1 {
      MonthSlotOfEnero();
    } else if m == 2 {
      MonthSlotOfFebrero();
    } else {
      MonthSlotOfMarzo();
    }
  }

  lemma MonthSlotSecondQuarter(m: int)
    requires 4 <= m <= 6
    ensures MonthSlot(MonthNames[m - 1]) == Digits(m, 2)
  {
    if m == 4 {
      MonthSlotOfAbril();
    } else if m == 5 {
      MonthSlotOfMayo();
    } else {
      MonthSlotOfJunio();
    }
  }

  lemma MonthSlotThirdQuarter(m: int)
    requires 7 <= m <= 9
    ensures MonthSlot(MonthNames[m - 1]) == Digits(m, 2)
  {
    if m == 7 {
      MonthSlotOfJulio();
    } else if m == 8 {
      MonthSlotOfAgosto();
    } else {
      MonthSlotOfSeptiembre();
    }
  }

  lemma MonthSlotFourthQuarter(m: int)
    requires 10 <= m <= 12
    ensures MonthSlot(MonthNames[m - 1]) == Digits(m, 2)
  {
    if m == 10 {
      MonthSlotOfOctubre();
    } else if m == 11 {
      MonthSlotOfNoviembre();
    } else {
      MonthSlotOfDiciembre();
    }
  }

  lemma MonthSlotOfEnero()
    ensures MonthSlot(MonthNames[0]) == Digits(1, 2)
  {
    assert MonthNames[0] == "enero";
    assert MonthSlot("enero") == "01";
    assert Digits(1, 2) == "01" by { assert Digits(1, 2) == Digits(0, 1) + [DigitChar(1)]; }
  }

  lemma MonthSlotOfFebrero()
    ensures MonthSlot(MonthNames[1]) == Digits(2, 2)
  {
    assert MonthNames[1] == "febrero";
    assert MonthSlot("febrero") == "02";
    assert Digits(2, 2) == "02" by { assert Digits(2, 2) == Digits(0, 1) + [DigitChar(2)]; }
  }

  lemma MonthSlotOfMarzo()
    ensures MonthSlot(MonthNames[2]) == Digits(3, 2)
  {
    assert MonthNames[2] == "marzo";
    assert MonthSlot("marzo") == "03";
    assert Digits(3, 2) == "03" by { assert Digits(3, 2) == Digits(0, 1) + [DigitChar(3)]; }
  }

  lemma MonthSlotOfAbril()
    ensures MonthSlot(MonthNames[3]) == Digits(4, 2)
  {
    assert MonthNames[3] == "abril";
    assert MonthSlot("abril") == "04";
    assert Digits(4, 2) == "04" by { assert Digits(4, 2) == Digits(0, 1) + [DigitChar(4)]; }
  }

  lemma MonthSlotOfMayo()
    ensures MonthSlot(MonthNames[4]) == Digits(5, 2)
  {
    assert MonthNames[4] == "mayo";
    assert MonthSlot("mayo") == "05";
    assert Digits(5, 2) == "05" by { assert Digits(5, 2) == Digits(0, 1) + [DigitChar(5)]; }
  }

  lemma MonthSlotOfJunio()
    ensures MonthSlot(MonthNames[5]) == Digits(6, 2)
  {
    assert MonthNames[5] == "junio";
    assert MonthSlot("junio") == "06";
    assert Digits(6, 2) == "06" by { assert Digits(6, 2) == Digits(0, 1) + [DigitChar(6)]; }
  }

  lemma MonthSlotOfJulio()
    ensures MonthSlot(MonthNames[6]) == Digits(7, 2)
  {
    assert MonthNames[6] == "julio";
    assert MonthSlot("julio") == "07";
    assert Digits(7, 2) == "07" by { assert Digits(7, 2) == Digits(0, 1) + [DigitChar(7)]; }
  }

  lemma MonthSlotOfAgosto()
    ensures MonthSlot(MonthNames[7]) == Digits(8, 2)
  {
    assert MonthNames[7] == "agosto";
    assert MonthSlot("agosto") == "08";
    assert Digits(8, 2) == "08" by { assert Digits(8, 2) == Digits(0, 1) + [DigitChar(8)]; }
  }

  lemma MonthSlotOfSeptiembre()
    ensures MonthSlot(MonthNames[8]) == Digits(9, 2)
  {
    assert MonthNames[8] == "septiembre";
    assert MonthSlot("septiembre") == "09";
    assert Digits(9, 2) == "09" by { assert Digits(9, 2) == Digits(0, 1) + [DigitChar(9)]; }
  }

  lemma MonthSlotOfOctubre()
    ensures MonthSlot(MonthNames[9]) == Digits(10, 2)
  {
    assert MonthNames[9] == "octubre";
    assert MonthSlot("octubre") == "10";
    assert Digits(10, 2) == "10" by { assert Digits(10, 2) == Digits(1, 1) + [DigitChar(0)]; }
  }

  lemma MonthSlotOfNoviembre()
    ensures MonthSlot(MonthNames[10]) == Digits(11, 2)
  {
    assert MonthNames[10] == "noviembre";
    assert MonthSlot("noviembre") == "11";
    assert Digits(11, 2) == "11" by { assert Digits(11, 2) == Digits(1, 1) + [DigitChar(1)]; }
  }

  lemma MonthSlotOfDiciembre()
    ensures MonthSlot(MonthNames[11]) == Digits(12, 2)
  {
    assert MonthNames[11] == "diciembre";
    assert MonthSlot("diciembre") == "12";
    assert Digits(12, 2) == "12" by { assert Digits(12, 2) == Digits(1, 1) + [DigitChar(2)]; }
  }

  /** Any other word than a month name or `constructor` is `undefined`. */
  lemma UnknownWordSlot(word: string)
    requires word !in MonthNames + ["constructor"]
    ensures MonthSlot(word) == "undefined"
  {
  }

  /** `/^\d{4}-\d{2}-\d{2}$/`. */
  predicate IsIsoShape(s: string) {
    |s| == 10 && AllDigits(s[..4]) && s[4] == '-' && AllDigits(s[5..7]) && s[7] == '-'
    && AllDigits(s[8..])
  }

  /** `[a-z]+`. */
  predicate IsWord(w: string) {
    |w| > 0 && forall k :: 0 <= k < |w| ==> IsLowerLetter(w[k])
  }

  /** The three groups of `/(\d{1,2}) de ([a-z]+)[,]?(?: de)? (\d{4})/`. */
  datatype SpanishParts = SpanishParts(day: string, month: string, year: string)

  /** Where the run of `[a-z]` letters starting at `i` ends. */
  function LetterRunEnd(s: string, i: nat): (j: nat)
    requires i <= |s|
    ensures i <= j <= |s|
    ensures forall k :: i <= k < j ==> IsLowerLetter(s[k])
    decreases |s| - i
  {
    if i < |s| && IsLowerLetter(s[i]) then LetterRunEnd(s, i + 1) else i
  }

  /** `[,]?(?: de)? (\d{4})` at `j`, the optional ` de` tried first. The month
      word before it is always the whole run of letters: a shorter word would
      leave a letter where the pattern needs `,` or a space. */
  function YearAfter(s: string, j: nat): (r: Option<string>)
    requires j <= |s|
    ensures r.Some? ==> |r.value| == 4 && AllDigits(r.value)
  {
    var k := if j < |s| && s[j] == ',' then j + 1 else j;
    if k + 8 <= |s| && s[k..k + 4] == " de " && AllDigits(s[k + 4..k + 8]) then Some(s[k + 4..k + 8])
    else if k + 5 <= |s| && s[k] == ' ' && AllDigits(s[k + 1..k + 5]) then Some(s[k + 1..k + 5])
    else None
  }

  /** The groups have the shapes the pattern gives them. */
  predicate WellFormedParts(p: SpanishParts) {
    1 <= |p.day| <= 2 && AllDigits(p.day) && IsWord(p.month) && |p.year| == 4 && AllDigits(p.year)
  }

  /** The rest of a match once the day digits end at `i`. */
  function RestAt(s: string, i: nat, day: string): (r: Option<SpanishParts>)
    requires i <= |s|
    ensures r.Some? ==> r.value.day == day && IsWord(r.value.month)
                        && |r.value.year| == 4 && AllDigits(r.value.year)
  {
    if i + 4 <= |s| && s[i..i + 4] == " de " then
      var r := LetterRunEnd(s, i + 4);
      if r == i + 4 then None
      else
        match YearAfter(s, r)
        case Some(y) => Some(SpanishParts(day, s[i + 4..r], y))
        case None => None
    else None
  }

  /** A match starting at `p`, two day digits tried before one. */
  function MatchAt(s: string, p: nat): (r: Option<SpanishParts>)
    requires p <= |s|
    ensures r.Some? ==> WellFormedParts(r.value)
  {
    if p < |s| && IsDigit(s[p]) then
      var two := if p + 1 < |s| && IsDigit(s[p + 1]) then RestAt(s, p + 2, s[p..p + 2]) else None;
      if two.Some? then two else RestAt(s, p + 1, s[p..p + 1])
    else None
  }

  /** `s.match(re)` without the global flag: the leftmost match. */
  function SearchFrom(s: string, p: nat): (r: Option<SpanishParts>)
    requires p <= |s|
    ensures r.Some? ==> WellFormedParts(r.value)
    decreases |s| - p
  {
    if p == |s| then None
    else
      match MatchAt(s, p)
      case Some(r) => Some(r)
      case None => SearchFrom(s, p + 1)
  }

  // ---------------------------------------------------------------------------
  // convertDateForInput

  /** `new Date().toISOString().split('T')[0]`: today's date in UTC. */
  function TodayIso(clock: Clock): (r: string)
    requires clock.Valid()
    ensures ParseIsoDate(r) == Some(UtcDate(clock.today, clock.msOfDay, clock.offsetMs))
    ensures IsIsoShape(r)
  {
    var u := UtcDate(clock.today, clock.msOfDay, clock.offsetMs);
    UtcDateOfClock(clock);
    ParseFormatIso(u);
    FormatIsoShape(u);
    FormatIso(u)
  }

  lemma FormatIsoShape(d: Date)
    requires ValidDate(d) && FourDigitYear(d)
    ensures IsIsoShape(FormatIso(d))
  {
    var s := FormatIso(d);
    assert s[..4] == Digits(d.year, 4);
    assert s[5..7] == Digits(d.month, 2);
    assert s[8..] == Digits(d.day, 2);
  }

  /** `convertDateForInput(dateString)`, as written: a missing or empty date is
      today (UTC); an ISO-shaped string is returned as it is; otherwise the first
      Spanish long-form date in the lower-cased text is rebuilt as
      `<year>-<month slot>-<day padded to two digits>`; anything else is today. */
  function NormalizeDueDate(input: Option<string>, clock: Clock): string
    requires clock.Valid()
  {
    if input.None? || input.value == "" then TodayIso(clock)
    else if IsIsoShape(input.value) then input.value
    else
      match SearchFrom(ToLower(input.value), 0)
      case Some(p) => p.year + "-" + MonthSlot(p.month) + "-" + PadStart2(p.day)
      case None => TodayIso(clock)
  }

  /** An ISO-shaped string comes back unchanged; a missing or empty one gives
      today's UTC date. */
  lemma NormalizeIsoAndMissing(s: string, clock: Clock)
    requires clock.Valid()
    ensures IsIsoShape(s) ==> NormalizeDueDate(Some(s), clock) == s
    ensures NormalizeDueDate(None, clock) == TodayIso(clock)
    ensures NormalizeDueDate(Some(""), clock) == TodayIso(clock)
  {
  }

  /** The separators `[,]?(?: de)? ` admits between month and year. */
  predicate IsSeparator(sep: string) {
    sep == " de " || sep == ", de " || sep == ", " || sep == " "
  }

  lemma MonthNamesAreWords(m: int)
    requires 1 <= m <= 12
    ensures IsWord(MonthNames[m - 1])
  {
    var w := MonthNames[m - 1];
    forall k | 0 <= k < |w| ensures IsLowerLetter(w[k]) {
    }
  }

  /** The run of letters starting at `i` ends right after the word found there. */
  lemma {:induction false} LetterRunOverWord(s: string, i: nat, w: string)
    requires i + |w| <= |s| && s[i..i + |w|] == w
    requires forall k :: 0 <= k < |w| ==> IsLowerLetter(w[k])
    requires i + |w| == |s| || !IsLowerLetter(s[i + |w|])
    ensures LetterRunEnd(s, i) == i + |w|
    decreases |w|
  {
    if |w| > 0 {
      assert s[i] == w[0];
      LetterRunOverWord(s, i + 1, w[1..]);
    }
  }

  /** The year part of a long-form date is found after any of the separators. */
  lemma YearAfterSeparator(s: string, j: nat, sep: string, ys: string, rest: string)
    requires j <= |s| && IsSeparator(sep) && |ys| == 4 && AllDigits(ys)
    requires s[j..] == sep + ys + rest
    ensures YearAfter(s, j) == Some(ys)
  {
    var t := sep + ys + rest;
    var n := |sep|;
    assert s[j] == t[0] by { SliceOfSuffix(s, j, 0, 1); }
    assert s[j + n..j + n + 4] == ys by {
      SliceOfSuffix(s, j, n, n + 4);
      assert t[n..n + 4] == ys;
    }
    if sep == " de " || sep == ", de " {
      assert s[j + n - 4..j + n] == " de " by {
        SliceOfSuffix(s, j, n - 4, n);
        assert t[n - 4..n] == sep[n - 4..];
      }
    } else {
      assert s[j + n - 1] == ' ' by {
        SliceOfSuffix(s, j, n - 1, n);
        assert t[n - 1] == sep[n - 1];
      }
      assert IsDigit(s[j + n]) by { assert s[j + n] == s[j + n..j + n + 4][0]; }
      assert j + n + 3 <= |s| ==> s[j + n - 1..j + n + 3][1] == s[j + n];
    }
  }

  /** A slice of a suffix is a slice of the whole text. */
  lemma SliceOfSuffix(s: string, j: nat, a: nat, b: nat)
    requires j <= |s| && a <= b <= |s| - j
    ensures s[j..][a..b] == s[j + a..j + b]
  {
  }

  /** The text after the day digits, ` de <word><separator><yyyy>`, is matched
      with the whole word as the month group. */
  lemma RestAtLongForm(s: string, i: nat, day: string, w: string, sep: string, ys: string, rest: string)
    requires IsWord(w) && IsSeparator(sep) && |ys| == 4 && AllDigits(ys)
    requires i + 4 + |w| <= |s| && s[i..i + 4] == " de " && s[i + 4..i + 4 + |w|] == w
    requires s[i + 4 + |w|..] == sep + ys + rest
    ensures RestAt(s, i, day) == Some(SpanishParts(day, w, ys))
  {
    var r := i + 4 + |w|;
    assert s[r] == sep[0];
    LetterRunOverWord(s, i + 4, w);
    YearAfterSeparator(s, r, sep, ys, rest);
  }

  /** A long-form date at position `i` is matched there, with the digits
      before ` de ` as the day. */
  lemma MatchAtLongForm(l: string, i: nat, ds: string, w: string, sep: string, ys: string, rest: string)
    requires 1 <= |ds| <= 2 && AllDigits(ds) && IsWord(w) && IsSeparator(sep)
    requires |ys| == 4 && AllDigits(ys)
    requires i + |ds| + 4 + |w| <= |l|
    requires l[i..i + |ds|] == ds && l[i + |ds|..i + |ds| + 4] == " de " && l[i + |ds|] == ' '
    requires l[i + |ds| + 4..i + |ds| + 4 + |w|] == w && l[i + |ds| + 4 + |w|..] == sep + ys + rest
    ensures MatchAt(l, i) == Some(SpanishParts(ds, w, ys))
  {
    RestAtLongForm(l, i + |ds|, ds, w, sep, ys, rest);
    MatchAtDay(l, i, ds);
  }

  /** The one or two digits at `i`, followed by a space, are the day when the
      rest matches after them. */
  lemma MatchAtDay(l: string, i: nat, ds: string)
    requires 1 <= |ds| <= 2 && AllDigits(ds) && i + |ds| < |l| && l[i..i + |ds|] == ds
    requires l[i + |ds|] == ' '
    requires RestAt(l, i + |ds|, ds).Some?
    ensures MatchAt(l, i) == RestAt(l, i + |ds|, ds)
  {
    assert l[i] == ds[0];
    if |ds| == 2 {
      assert l[i + 1] == ds[1];
    }
  }

  /** Where the pieces of a long-form text starting at `i` sit. */
  lemma LongFormPieces(l: string, i: nat, ds: string, w: string, sep: string, ys: string, rest: string)
    requires i <= |l| && l[i..] == ds + " de " + w + sep + ys + rest
    ensures i + |ds| + 4 + |w| <= |l|
    ensures l[i..i + |ds|] == ds && l[i + |ds|..i + |ds| + 4] == " de " && l[i + |ds|] == ' '
    ensures l[i + |ds| + 4..i + |ds| + 4 + |w|] == w && l[i + |ds| + 4 + |w|..] == sep + ys + rest
  {
    var n := |ds|;
    var t := l[i..];
    var tail := sep + ys + rest;
    assert t == ds + (" de " + (w + tail));
    assert l[i..i + n] == t[..n];
    assert l[i + n..i + n + 4] == t[n..n + 4];
    assert l[i + n] == t[n];
    assert l[i + n + 4..i + n + 4 + |w|] == t[n + 4..n + 4 + |w|];
    assert l[i + n + 4 + |w|..] == t[n + 4 + |w|..];
  }

  /** Positions where no match starts are passed over by the search. */
  lemma {:induction false} SearchSkips(s: string, p: nat, q: nat)
    requires p <= q <= |s|
    requires forall k :: p <= k < q ==> MatchAt(s, k).None?
    ensures SearchFrom(s, p) == SearchFrom(s, q)
    decreases q - p
  {
    if p < q {
      SearchSkips(s, p + 1, q);
    }
  }

  /** The search finds nothing exactly when no match starts at or after `p`. */
  lemma {:induction false} SearchFromNone(s: string, p: nat)
    requires p <= |s|
    ensures SearchFrom(s, p).None? <==> forall q :: p <= q <= |s| ==> MatchAt(s, q).None?
    decreases |s| - p
  {
    if p == |s| {
      assert MatchAt(s, p).None?;
    } else {
      SearchFromNone(s, p + 1);
      if MatchAt(s, p).Some? {
        assert SearchFrom(s, p).Some?;
      } else {
        assert SearchFrom(s, p) == SearchFrom(s, p + 1);
        AllNoneStep(s, p);
      }
    }
  }

  /** "No match at or after `p`" is "none at `p`" and "none at or after `p + 1`". */
  lemma AllNoneStep(s: string, p: nat)
    requires p < |s| && MatchAt(s, p).None?
    ensures (forall q :: p <= q <= |s| ==> MatchAt(s, q).None?)
            <==> (forall q :: p + 1 <= q <= |s| ==> MatchAt(s, q).None?)
  {
    if forall q :: p + 1 <= q <= |s| ==> MatchAt(s, q).None? {
      forall q | p <= q <= |s| ensures MatchAt(s, q).None? {
        if q > p { assert p + 1 <= q; }
      }
    }
  }

  /** A match the search finds starts at the leftmost position where one
      starts. */
  lemma {:induction false} SearchFromLeftmost(s: string, p: nat)
    requires p <= |s|
    ensures SearchFrom(s, p).Some? ==>
              exists q :: p <= q < |s| && MatchAt(s, q) == SearchFrom(s, p)
                          && forall k :: p <= k < q ==> MatchAt(s, k).None?
    decreases |s| - p
  {
    if p < |s| && MatchAt(s, p).Some? {
      assert MatchAt(s, p) == SearchFrom(s, p);
    } else if p < |s| && SearchFrom(s, p + 1).Some? {
      assert SearchFrom(s, p) == SearchFrom(s, p + 1);
      SearchFromLeftmost(s, p + 1);
      var q :| p + 1 <= q < |s| && MatchAt(s, q) == SearchFrom(s, p + 1)
               && forall k :: p + 1 <= k < q ==> MatchAt(s, k).None?;
      NoneBefore(s, p, q);
    }
  }

  /** No match at `p` and none in `p + 1 .. q` is none in `p .. q`. */
  lemma NoneBefore(s: string, p: nat, q: nat)
    requires p < q <= |s| && MatchAt(s, p).None?
    requires forall k :: p + 1 <= k < q ==> MatchAt(s, k).None?
    ensures forall k :: p <= k < q ==> MatchAt(s, k).None?
  {
    forall k | p <= k < q ensures MatchAt(s, k).None? {
      if k > p { assert p + 1 <= k; }
    }
  }

  /** Text that is neither missing, nor ISO-shaped, nor holds a long-form date
      anywhere gives today's UTC date. */
  lemma NormalizeNoMatch(s: string, clock: Clock)
    requires clock.Valid() && s != "" && !IsIsoShape(s)
    requires forall q :: 0 <= q <= |s| ==> MatchAt(ToLower(s), q).None?
    ensures NormalizeDueDate(Some(s), clock) == TodayIso(clock)
  {
    SearchFromNone(ToLower(s), 0);
  }

  /** Otherwise the leftmost long-form date in the lower-cased text is the one
      rebuilt. */
  lemma NormalizeLeftmostMatch(s: string, q: nat, clock: Clock)
    requires clock.Valid() && s != "" && !IsIsoShape(s)
    requires q <= |s| && MatchAt(ToLower(s), q).Some?
    requires forall k :: 0 <= k < q ==> MatchAt(ToLower(s), k).None?
    ensures var p := MatchAt(ToLower(s), q).value;
            NormalizeDueDate(Some(s), clock) == p.year + "-" + MonthSlot(p.month) + "-" + PadStart2(p.day)
  {
    SearchSkips(ToLower(s), 0, q);
  }

  /** A Spanish long-form due date `<d> de <word>[,][ de] <yyyy>` after any
      text without digits, in any letter case, comes out as
      `<yyyy>-<month slot>-<d padded to two digits>`. */
  lemma NormalizeLongForm(s: string, pre: string, ds: string, w: string, sep: string, ys: string, rest: string,
                          clock: Clock)
    requires clock.Valid() && NoDigits(pre)
    requires 1 <= |ds| <= 2 && AllDigits(ds) && IsWord(w) && IsSeparator(sep)
    requires |ys| == 4 && AllDigits(ys)
    requires ToLower(s) == pre + ds + " de " + w + sep + ys + rest
    ensures NormalizeDueDate(Some(s), clock) == ys + "-" + MonthSlot(w) + "-" + PadStart2(ds)
  {
    assert s != "" && !IsIsoShape(s) by {
      LongFormNotIso(s, pre, ds, w + sep + ys + rest);
    }
    LongFormLeftmost(ToLower(s), pre, ds, w, sep, ys, rest);
    NormalizeLeftmostMatch(s, |pre|, clock);
  }

  /** In digit-free text followed by a long-form date, the date is the first
      match. */
  lemma LongFormLeftmost(l: string, pre: string, ds: string, w: string, sep: string, ys: string, rest: string)
    requires NoDigits(pre) && 1 <= |ds| <= 2 && AllDigits(ds) && IsWord(w) && IsSeparator(sep)
    requires |ys| == 4 && AllDigits(ys)
    requires l == pre + ds + " de " + w + sep + ys + rest
    ensures |pre| <= |l| && MatchAt(l, |pre|) == Some(SpanishParts(ds, w, ys))
    ensures forall k :: 0 <= k < |pre| ==> MatchAt(l, k).None?
  {
    var i := |pre|;
    var date := ds + " de " + w + sep + ys + rest;
    assert l == pre + date;
    assert MatchAt(l, i) == Some(SpanishParts(ds, w, ys)) by {
      assert l[i..] == date;
      LongFormPieces(l, i, ds, w, sep, ys, rest);
      MatchAtLongForm(l, i, ds, w, sep, ys, rest);
    }
    NoMatchBeforeDigits(l, pre, date);
  }

  /** No match starts inside a digit-free prefix. */
  lemma NoMatchBeforeDigits(l: string, pre: string, after: string)
    requires NoDigits(pre) && l == pre + after
    ensures forall k :: 0 <= k < |pre| ==> MatchAt(l, k).None?
  {
    forall k | 0 <= k < |pre| ensures MatchAt(l, k).None? {
      assert l[k] == pre[k];
    }
  }

  /** A text whose lower-cased form is digit-free text, one or two digits and
      ` de ` is not ISO-shaped: its first character is not a digit, or its
      fifth is a space or an `e`. */
  lemma LongFormNotIso(s: string, pre: string, ds: string, after: string)
    requires NoDigits(pre) && 1 <= |ds| <= 2 && ToLower(s) == pre + ds + " de " + after
    ensures s != "" && !IsIsoShape(s)
  {
    var l := ToLower(s);
    if pre == "" {
      var tail := " de " + after;
      assert l == ds + tail;
      assert l[4] == LowerChar(s[4]);
      if |ds| == 1 { assert l[4] == tail[3] == ' '; } else { assert l[4] == tail[2] == 'e'; }
    } else {
      assert l[0] == pre[0] && l[0] == LowerChar(s[0]);
      assert |s| >= 4 && AllDigits(s[..4]) ==> IsDigit(s[0]) by {
        if |s| >= 4 { assert s[..4][0] == s[0]; }
      }
    }
  }

  /** With a month name from the table the result is the ISO date
      `<yyyy>-<mm>-<dd>`: `"05 de marzo de 2025"` becomes `"2025-03-05"`. */
  lemma NormalizeSpanishLongForm(s: string, pre: string, ds: string, m: int, sep: string, ys: string, rest: string,
                                 clock: Clock)
    requires clock.Valid() && NoDigits(pre)
    requires 1 <= |ds| <= 2 && AllDigits(ds) && 1 <= m <= 12 && IsSeparator(sep)
    requires |ys| == 4 && AllDigits(ys)
    requires ToLower(s) == pre + ds + " de " + MonthNames[m - 1] + sep + ys + rest
    ensures NormalizeDueDate(Some(s), clock) == ys + "-" + Digits(m, 2) + "-" + PadStart2(ds)
  {
    MonthNamesAreWords(m);
    NormalizeLongForm(s, pre, ds, MonthNames[m - 1], sep, ys, rest, clock);
    MonthSlotOfName(m);
  }

  /** What `toLocaleDateString('es-MX', { day: '2-digit', month: 'long',
      year: 'numeric' })` writes for a date with a four-digit year: a reference
      for the long form the normaliser reads. */
  function SpanishLongDate(d: Date): (s: string)
    requires ValidDate(d) && FourDigitYear(d)
    ensures NoCapitals(s)
  {
    var s := Digits(d.day, 2) + " de " + MonthNames[d.month - 1] + " de " + Digits(d.year, 4);
    assert forall i :: 0 <= i < |s| ==> IsDigit(s[i]) || IsLowerLetter(s[i]) || s[i] == ' ' by {
      MonthNamesAreWords(d.month);
    }
    s
  }

  /** The normaliser reads the Spanish long form back to the ISO date. */
  lemma NormalizeSpanishLongDate(d: Date, clock: Clock)
    requires clock.Valid() && ValidDate(d) && FourDigitYear(d)
    ensures NormalizeDueDate(Some(SpanishLongDate(d)), clock) == FormatIso(d)
  {
    SpanishLongDateLower(d);
    NormalizeSpanishLongForm(SpanishLongDate(d), "", Digits(d.day, 2), d.month, " de ", Digits(d.year, 4), "", clock);
    IsoOfFields(d);
  }

  /** The long form is already lower case, made of the day, the month name and
      the year. */
  lemma SpanishLongDateLower(d: Date)
    requires ValidDate(d) && FourDigitYear(d)
    ensures ToLower(SpanishLongDate(d))
            == "" + Digits(d.day, 2) + " de " + MonthNames[d.month - 1] + " de " + Digits(d.year, 4) + ""
  {
    ToLowerKeepsLower(SpanishLongDate(d));
  }

  /** The ISO text of a date with a four-digit year, with the day written as
      `padStart(2, '0')` leaves two digits. */
  lemma IsoOfFields(d: Date)
    requires ValidDate(d) && FourDigitYear(d)
    ensures FormatIso(d) == Digits(d.year, 4) + "-" + Digits(d.month, 2) + "-" + PadStart2(Digits(d.day, 2))
  {
    assert YearText(d.year) == Digits(d.year, 4);
  }

  /** A word the month table lacks gives a string no `Date` accepts, so a due
      date written that way is never past due. */
  lemma UnknownMonthNeverDue(s: string, clock: Clock)
    requires clock.Valid() && s != "" && !IsIsoShape(s)
    requires var p := SearchFrom(ToLower(s), 0); p.Some? && p.value.month !in MonthNames
    ensures ParseIsoDate(NormalizeDueDate(Some(s), clock)) == None
    ensures !PastDue(clock, NormalizeDueDate(Some(s), clock))
  {
    var p := SearchFrom(ToLower(s), 0).value;
    UnknownMonthSlot(p.month);
    assert |PadStart2(p.day)| == 2;
    SlotNeverParses(p.year, MonthSlot(p.month), PadStart2(p.day));
  }

  /** The slot of a word that is not a month name is `undefined` or the text
      of `Object`; neither has a `-` three characters from its end. */
  lemma UnknownMonthSlot(word: string)
    requires word !in MonthNames
    ensures var slot := MonthSlot(word);
            |slot| >= 3 && slot[|slot| - 3] != '-'
  {
    var slot := MonthSlot(word);
    assert slot == "undefined" || slot == "function Object() { [native code] }";
  }

  /** `<year>-<slot>-<dd>` is no date when the character three from the end of
      the slot is not a `-`: the month field the parser reads is then not
      `-MM-`. */
  lemma SlotNeverParses(year: string, slot: string, pad: string)
    requires |slot| >= 3 && slot[|slot| - 3] != '-' && |pad| == 2
    ensures ParseIsoDate(year + "-" + slot + "-" + pad) == None
  {
    var r := year + "-" + slot + "-" + pad;
    var head := year + "-" + slot;
    assert r == head + "-" + pad;
    assert r[|r| - 6..] == head[|head| - 3..] + "-" + pad;
    assert head[|head| - 3..] == slot[|slot| - 3..];
  }

  /** The variant spelling "setiembre" is not in the table: the result has
      `undefined` in the month slot and never parses. */
  lemma SetiembreIsUndefined(clock: Clock)
    requires clock.Valid()
    ensures NormalizeDueDate(Some("05 de setiembre de 2025"), clock) == "2025-undefined-05"
    ensures ParseIsoDate("2025-undefined-05") == None
  {
    SetiembreMatches(clock);
    SetiembreText();
    UndefinedSlotNeverParses();
  }

  lemma SetiembreText()
    ensures "2025" + "-" + MonthSlot("setiembre") + "-" + PadStart2("05") == "2025-undefined-05"
  {
    SetiembreNotAMonth();
    UnknownWordSlot("setiembre");
    assert PadStart2("05") == "05";
  }

  lemma SetiembreMatches(clock: Clock)
    requires clock.Valid()
    ensures NormalizeDueDate(Some("05 de setiembre de 2025"), clock)
            == "2025" + "-" + MonthSlot("setiembre") + "-" + PadStart2("05")
  {
    SetiembrePieces();
    assert "" + "05" == "05";
    NormalizeLongForm("05 de setiembre de 2025", "", "05", "setiembre", " de ", "2025", "", clock);
  }

  lemma SetiembrePieces()
    ensures ToLower("05 de setiembre de 2025") == "05" + " de " + "setiembre" + " de " + "2025" + ""
    ensures IsWord("setiembre") && AllDigits("05") && AllDigits("2025")
  {
    SetiembreLower();
    SetiembreConcat();
  }

  lemma SetiembreLower()
    ensures ToLower("05 de setiembre de 2025") == "05 de setiembre de 2025"
  {
    var s := "05 de setiembre de 2025";
    assert NoCapitals(s);
    ToLowerKeepsLower(s);
  }

  lemma SetiembreConcat()
    ensures "05 de setiembre de 2025" == "05" + " de " + "setiembre" + " de " + "2025" + ""
  {
  }

  lemma SetiembreNotAMonth()
    ensures "setiembre" !in MonthNames + ["constructor"]
  {
    var names := MonthNames + ["constructor"];
    assert forall k :: 0 <= k < 13 ==> (|names[k]| != 9 || names[k][0] != 's');
  }

  lemma UndefinedSlotNeverParses()
    ensures ParseIsoDate("2025-undefined-05") == None
  {
    var r := "2025-undefined-05";
    assert r[|r| - 6..][0] == 'n';
  }

  /** A missing due date is today's UTC date, and is already past due exactly
      when UTC is a day behind local time (east of UTC, before the offset has
      elapsed since local midnight), or in the last fraction of a second of a
      local day that UTC shares. */
  lemma MissingDueDatePastDue(clock: Clock)
    requires clock.Valid()
    ensures var t := clock.msOfDay + clock.offsetMs;
            PastDue(clock, NormalizeDueDate(None, clock))
            <==> t < 0 || (t < MsPerDay && clock.msOfDay > EndOfDayMs)
  {
    var d := clock.today;
    var t := clock.msOfDay + clock.offsetMs;
    var u := UtcDate(d, clock.msOfDay, clock.offsetMs);
    assert ParseIsoDate(NormalizeDueDate(None, clock)) == Some(u);
    if t < 0 {
      assert t / MsPerDay == -1;
      RollPreviousDay(d);
    } else if t < MsPerDay {
      assert t / MsPerDay == 0;
    } else {
      assert t / MsPerDay == 1;
      RollNextDay(d);
    }
  }

  // ---------------------------------------------------------------------------
  // getNextMonthDate

  /** The local date a `new Date(y, m - 1, d)` holds after
      `setMonth(getMonth() + 1)`, the three numbers read with `split('-')` and
      `Number`; `None` when the object is an Invalid Date. A two-digit year is
      taken as 19xx, as the `Date` constructor does. */
  function NextMonthLocal(s: string): Option<Date> {
    var parts := SplitOn(s, '-');
    if |parts| < 3 then None
    else
      var y, m, d := Number(parts[0]), Number(parts[1]), Number(parts[2]);
      if y.None? || m.None? || d.None? then None
      else
        var year := if 0 <= y.value <= 99 then 1900 + y.value else y.value;
        var start := MakeDay(year, m.value - 1, d.value);
        if !InTimeRange(start) then None
        else
          var next := MakeDay(start.year, start.month, start.day);
          if InTimeRange(next) then Some(next) else None
  }

  /** `getNextMonthDate(dateStr)` as written: the local midnight of the moved date
      is printed with `toISOString`, i.e. as the UTC date of that instant; `None`
      stands for the RangeError an Invalid Date throws. */
  function NextMonthDateAsWritten(s: string, offsetMs: int): Option<string>
    requires -MsPerDay < offsetMs < MsPerDay
  {
    match NextMonthLocal(s)
    case None => None
    case Some(next) =>
      var u := UtcDate(next, 0, offsetMs);
      if InTimeRange(u) then Some(FormatIso(u)) else None
  }

  /** `getNextMonthDate` printing the local date it computed. */
  function NextMonthDate(s: string): Option<string> {
    match NextMonthLocal(s)
    case None => None
    case Some(next) => Some(FormatIso(next))
  }

  /** At or west of UTC local midnight is still the same UTC day, so the code as
      written gives the local date. */
  lemma NextMonthWestOfUtc(s: string, offsetMs: int)
    requires 0 <= offsetMs < MsPerDay
    ensures NextMonthDateAsWritten(s, offsetMs) == NextMonthDate(s)
  {
    if NextMonthLocal(s).Some? {
      var next := NextMonthLocal(s).value;
      UtcDateNotBeforeLocal(next, 0, offsetMs);
    }
  }

  /** East of UTC local midnight is the previous UTC day: in UTC+1,
      2025-01-15 moves to 2025-02-14 instead of 2025-02-15. */
  lemma NextMonthEastOfUtcSlips()
    ensures NextMonthDateAsWritten("2025-01-15", -3600000) == Some("2025-02-14")
    ensures NextMonthDate("2025-01-15") == Some("2025-02-15")
  {
    FebruaryFourteenth();
    assert NextMonthLocal("2025-01-15") == Some(Date(2025, 2, 15)) by {
      NextMonthOfIso(Date(2025, 1, 15));
      assert OneMonthOn(Date(2025, 1, 15)) == Date(2025, 2, 15);
    }
    assert UtcDate(Date(2025, 2, 15), 0, -3600000) == Date(2025, 2, 14) by {
      assert (0 + -3600000) / MsPerDay == -1;
      assert Roll(2025, 2, 14) == Date(2025, 2, 14);
    }
    assert InTimeRange(Date(2025, 2, 14));
  }

  lemma FebruaryFourteenth()
    ensures FormatIso(Date(2025, 2, 14)) == "2025-02-14"
    ensures FormatIso(Date(2025, 1, 15)) == "2025-01-15"
    ensures FormatIso(Date(2025, 2, 15)) == "2025-02-15"
  {
    IsoText(Date(2025, 2, 14), "2025-02-14");
    IsoText(Date(2025, 1, 15), "2025-01-15");
    IsoText(Date(2025, 2, 15), "2025-02-15");
  }

  lemma NoDashInDigits(s: string)
    requires AllDigits(s)
    ensures '-' !in s
  {
    forall k | 0 <= k < |s| ensures s[k] != '-' {
      assert IsDigit(s[k]);
    }
  }

  /** Three separator-free pieces joined by dashes split back into those pieces. */
  lemma SplitThree(a: string, b: string, c: string)
    requires AllDigits(a) && AllDigits(b) && AllDigits(c)
    ensures SplitOn(a + ['-'] + (b + ['-'] + c), '-') == [a, b, c]
  {
    NoDashInDigits(a);
    NoDashInDigits(b);
    NoDashInDigits(c);
    SplitOnPiece(a, '-', b + ['-'] + c);
    SplitOnPiece(b, '-', c);
    SplitOnWhole(c, '-');
  }

  /** An ISO date with a four-digit year is its three zero-padded fields. */
  lemma IsoFields(d: Date)
    requires ValidDate(d) && FourDigitYear(d)
    ensures FormatIso(d) == Digits(d.year, 4) + ['-'] + (Digits(d.month, 2) + ['-'] + Digits(d.day, 2))
  {
    assert YearText(d.year) == Digits(d.year, 4);
  }

  /** Reading an ISO date back through `split('-')` and `Number`. */
  lemma SplitIsoDate(d: Date)
    requires ValidDate(d) && FourDigitYear(d)
    ensures var parts := SplitOn(FormatIso(d), '-');
            |parts| == 3 && Number(parts[0]) == Some(d.year)
            && Number(parts[1]) == Some(d.month) && Number(parts[2]) == Some(d.day)
  {
    IsoFields(d);
    SplitThree(Digits(d.year, 4), Digits(d.month, 2), Digits(d.day, 2));
    DigitsRoundTrip(d.year, 4);
    DigitsRoundTrip(d.month, 2);
    DigitsRoundTrip(d.day, 2);
  }

  /** The same day of the next month, December going to January of the next
      year, and a day the next month lacks running over into the month after. */
  function OneMonthOn(d: Date): Date
    requires 1 <= d.month <= 12
  {
    var ny := if d.month == 12 then d.year + 1 else d.year;
    var nm := if d.month == 12 then 1 else d.month + 1;
    if d.day <= DaysInMonth(ny, nm) then Date(ny, nm, d.day)
    else Date(ny, nm + 1, d.day - DaysInMonth(ny, nm))
  }

  /** `setMonth(getMonth() + 1)` on a valid date lands on `OneMonthOn`. */
  lemma OneMonthOnMakeDay(d: Date)
    requires ValidDate(d) && 100 <= d.year <= 9999
    ensures MakeDay(d.year, d.month, d.day) == OneMonthOn(d)
    ensures ValidDate(OneMonthOn(d)) && InTimeRange(OneMonthOn(d))
  {
    MakeDayNextMonth(d);
  }

  /** One month on from an ISO date with a year from 100 to 9999 is
      `OneMonthOn` of that date, printed back in ISO form. */
  lemma NextMonthOfIso(d: Date)
    requires ValidDate(d) && 100 <= d.year <= 9999
    ensures ValidDate(OneMonthOn(d)) && InTimeRange(OneMonthOn(d))
    ensures NextMonthLocal(FormatIso(d)) == Some(OneMonthOn(d))
    ensures NextMonthDate(FormatIso(d)) == Some(FormatIso(OneMonthOn(d)))
  {
    SplitIsoDate(d);
    NextMonthOfFields(FormatIso(d), d);
  }

  /** `getNextMonthDate` on any text whose first three `-`-separated fields
      read as the year, month and day of a valid date with a year from 100 to
      9999. */
  lemma NextMonthOfFields(s: string, d: Date)
    requires ValidDate(d) && 100 <= d.year <= 9999
    requires var parts := SplitOn(s, '-');
             |parts| >= 3 && Number(parts[0]) == Some(d.year)
             && Number(parts[1]) == Some(d.month) && Number(parts[2]) == Some(d.day)
    ensures NextMonthLocal(s) == Some(OneMonthOn(d))
  {
    MakeDayOfValid(d);
    FourDigitYearInRange(d);
    OneMonthOnMakeDay(d);
  }

  /** The ISO text of a date with a four-digit year, character by character. */
  lemma IsoChars(d: Date)
    requires ValidDate(d) && FourDigitYear(d)
    ensures var y := d.year;
            FormatIso(d) == [DigitChar(y / 10 / 10 / 10 % 10), DigitChar(y / 10 / 10 % 10), DigitChar(y / 10 % 10),
                             DigitChar(y % 10), '-', DigitChar(d.month / 10 % 10), DigitChar(d.month % 10), '-',
                             DigitChar(d.day / 10 % 10), DigitChar(d.day % 10)]
  {
    var y := d.year;
    assert YearText(y) == Digits(y, 4);
    assert Digits(y / 10 / 10 / 10, 1) == [DigitChar(y / 10 / 10 / 10 % 10)];
    assert Digits(y / 10 / 10, 2) == Digits(y / 10 / 10 / 10, 1) + [DigitChar(y / 10 / 10 % 10)];
    assert Digits(y / 10, 3) == Digits(y / 10 / 10, 2) + [DigitChar(y / 10 % 10)];
    assert Digits(y, 4) == Digits(y / 10, 3) + [DigitChar(y % 10)];
    assert Digits(d.month, 2) == [DigitChar(d.month / 10 % 10), DigitChar(d.month % 10)];
    assert Digits(d.day, 2) == [DigitChar(d.day / 10 % 10), DigitChar(d.day % 10)];
  }

  /** A date's ISO text, checked character by character. */
  lemma IsoText(d: Date, s: string)
    requires ValidDate(d) && FourDigitYear(d) && |s| == 10
    requires s[4] == '-' && s[7] == '-'
    requires s[0] == DigitChar(d.year / 10 / 10 / 10 % 10) && s[1] == DigitChar(d.year / 10 / 10 % 10)
    requires s[2] == DigitChar(d.year / 10 % 10) && s[3] == DigitChar(d.year % 10)
    requires s[5] == DigitChar(d.month / 10 % 10) && s[6] == DigitChar(d.month % 10)
    requires s[8] == DigitChar(d.day / 10 % 10) && s[9] == DigitChar(d.day % 10)
    ensures FormatIso(d) == s
  {
    IsoChars(d);
  }

  /** 2025-01-31 becomes 2025-03-03: February 2025 has no 31st, so the three
      days past its end run into March. */
  lemma NextMonthJanuary31()
    ensures NextMonthDate("2025-01-31") == Some("2025-03-03")
  {
    NextMonthJanuary31Text();
    assert NextMonthLocal("2025-01-31") == Some(Date(2025, 3, 3)) by {
      NextMonthOfIso(Date(2025, 1, 31));
      assert OneMonthOn(Date(2025, 1, 31)) == Date(2025, 3, 3);
    }
  }

  lemma NextMonthJanuary31Text()
    ensures FormatIso(Date(2025, 1, 31)) == "2025-01-31"
    ensures FormatIso(Date(2025, 3, 3)) == "2025-03-03"
  {
    IsoText(Date(2025, 1, 31), "2025-01-31");
    IsoText(Date(2025, 3, 3), "2025-03-03");
  }

  /** 2024-01-30 becomes 2024-03-01: February 2024 has 29 days. */
  lemma NextMonthLeapJanuary30()
    ensures NextMonthDate("2024-01-30") == Some("2024-03-01")
  {
    NextMonthLeapJanuary30Text();
    assert NextMonthLocal("2024-01-30") == Some(Date(2024, 3, 1)) by {
      NextMonthOfIso(Date(2024, 1, 30));
      assert OneMonthOn(Date(2024, 1, 30)) == Date(2024, 3, 1);
    }
  }

  lemma NextMonthLeapJanuary30Text()
    ensures FormatIso(Date(2024, 1, 30)) == "2024-01-30"
    ensures FormatIso(Date(2024, 3, 1)) == "2024-03-01"
  {
    IsoText(Date(2024, 1, 30), "2024-01-30");
    IsoText(Date(2024, 3, 1), "2024-03-01");
  }

  /** December rolls into January of the next year. */
  lemma NextMonthDecember()
    ensures NextMonthDate("2025-12-15") == Some("2026-01-15")
  {
    NextMonthDecemberText();
    assert NextMonthLocal("2025-12-15") == Some(Date(2026, 1, 15)) by {
      NextMonthOfIso(Date(2025, 12, 15));
      assert OneMonthOn(Date(2025, 12, 15)) == Date(2026, 1, 15);
    }
  }

  lemma NextMonthDecemberText()
    ensures FormatIso(Date(2025, 12, 15)) == "2025-12-15"
    ensures FormatIso(Date(2026, 1, 15)) == "2026-01-15"
  {
    IsoText(Date(2025, 12, 15), "2025-12-15");
    IsoText(Date(2026, 1, 15), "2026-01-15");
  }
}
