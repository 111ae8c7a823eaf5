/** The date helpers: `extractDate` (cloudflare-worker/index.js:106-118),
    `getNextDeliveryDate` (95-104) and `formatSheetDate` (89-93). A date is the
    (day, month) pair read from the message; a weekday is 0 (Sunday) to 6 (Saturday). */
module Dates {
  import opened Chars
  import opened Strings
  import opened Numbers

  /** Day of the month and month number (1 for January) as the message spells them. */
  datatype DayMonth = DayMonth(day: int, month: int)

  /** `const [d, m] = w.split(".")`, `if (!d || !m) continue`, then `parseInt` of both:
      the date a token names, if its first two `.`-pieces are non-empty integers. */
  function DateFields(w: string): (r: Option<DayMonth>)
    ensures r.Some? ==> '.' in w
  {
    var parts := SplitOn(w, '.');
    if |parts| < 2 || parts[0] == "" || parts[1] == "" then None
    else
      assert '.' in w by {
        if '.' !in w {
          SplitOnFree(w, '.');
        }
      }
      match (ParseInt(parts[0]), ParseInt(parts[1]))
      case (Some(d), Some(m)) => Some(DayMonth(d, m))
      case _ => None
  }

  /** Token `w` is the one `extractDate` returns when it reaches it: its fields parse
      and `new Date(year, month - 1, day)` is a valid date, which `representable` says. */
  predicate IsDateToken(w: string, representable: DayMonth -> bool) {
    DateFields(w).Some? && representable(DateFields(w).value)
  }

  /** The date of the first date token in `words`, or `null`. */
  function FirstDate(words: seq<string>, representable: DayMonth -> bool): Option<DayMonth>
    decreases |words|
  {
    if words == [] then None
    else if IsDateToken(words[0], representable) then DateFields(words[0])
    else FirstDate(words[1..], representable)
  }

  /** `FirstDate` is `null` exactly when no token is a date token; otherwise it is the
      date of a date token before which there is none. */
  lemma {:induction false} FirstDateIsFirst(words: seq<string>, representable: DayMonth -> bool)
    ensures FirstDate(words, representable).None? <==>
            forall k :: 0 <= k < |words| ==> !IsDateToken(words[k], representable)
    ensures FirstDate(words, representable).Some? ==>
            exists k :: 0 <= k < |words| && IsDateToken(words[k], representable)
                        && DateFields(words[k]) == FirstDate(words, representable)
                        && forall j :: 0 <= j < k ==> !IsDateToken(words[j], representable)
  {
    FirstDateNone(words, representable);
    if FirstDate(words, representable).Some? {
      FirstDateFound(words, representable);
    }
  }

  lemma {:induction false} FirstDateNone(words: seq<string>, representable: DayMonth -> bool)
    ensures FirstDate(words, representable).None? <==>
            forall k :: 0 <= k < |words| ==> !IsDateToken(words[k], representable)
    decreases |words|
  {
    if words != [] {
      FirstDateNone(words[1..], representable);
      if !IsDateToken(words[0], representable) && FirstDate(words, representable).None? {
        forall k | 0 <= k < |words|
          ensures !IsDateToken(words[k], representable)
        {
          if k > 0 {
            assert words[k] == words[1..][k - 1];
          }
        }
      } else if !IsDateToken(words[0], representable) {
        var k :| 0 <= k < |words[1..]| && IsDateToken(words[1..][k], representable);
        assert words[k + 1] == words[1..][k];
      }
    }
  }

  lemma {:induction false} FirstDateFound(words: seq<string>, representable: DayMonth -> bool)
    requires FirstDate(words, representable).Some?
    ensures exists k :: 0 <= k < |words| && IsDateToken(words[k], representable)
                        && DateFields(words[k]) == FirstDate(words, representable)
                        && forall j :: 0 <= j < k ==> !IsDateToken(words[j], representable)
    decreases |words|
  {
    if IsDateToken(words[0], representable) {
      assert 0 < |words| && IsDateToken(words[0], representable);
    } else {
      assert FirstDate(words, representable) == FirstDate(words[1..], representable);
      FirstDateFound(words[1..], representable);
      var k :| 0 <= k < |words[1..]| && IsDateToken(words[1..][k], representable)
               && DateFields(words[1..][k]) == FirstDate(words[1..], representable)
               && forall j :: 0 <= j < k ==> !IsDateToken(words[1..][j], representable);
      assert words[k + 1] == words[1..][k];
      NoDateTokenShift(words, k, representable);
    }
  }

  /** No date token among the first `k` tokens after the first, nor the first: none
      among the first `k + 1`. */
  lemma {:induction false} NoDateTokenShift(words: seq<string>, k: nat, representable: DayMonth -> bool)
    requires k < |words|
    requires !IsDateToken(words[0], representable)
    requires forall j :: 0 <= j < k ==> !IsDateToken(words[1..][j], representable)
    ensures forall j :: 0 <= j < k + 1 ==> !IsDateToken(words[j], representable)
  {
    forall j | 0 <= j < k + 1
      ensures !IsDateToken(words[j], representable)
    {
      if j > 0 {
        assert words[j] == words[1..][j - 1];
      }
    }
  }

  /** The loop of `extractDate`, with its early return. */
  method ExtractDate(words: seq<string>, representable: DayMonth -> bool) returns (date: Option<DayMonth>)
    ensures date == FirstDate(words, representable)
  {
    var k := 0;
    while k < |words|
      invariant 0 <= k <= |words|
      invariant FirstDate(words[k..], representable) == FirstDate(words, representable)
    {
      assert words[k..][1..] == words[k + 1..];
      var w := words[k];
      var parts := SplitOn(w, '.');
      if |parts| < 2 || parts[0] == "" || parts[1] == "" {
        k := k + 1;
        continue;
      }
      var day := ParseInt(parts[0]);
      var month := ParseInt(parts[1]);
      if day.None? || month.None? {
        k := k + 1;
        continue;
      }
      if representable(DayMonth(day.value, month.value)) {
        return Some(DayMonth(day.value, month.value));
      }
      k := k + 1;
    }
    return None;
  }

  /** `^\d{1,2}\.\d{1,2}$` with the dot at index `k`. */
  predicate DateShapedAt(w: string, k: nat) {
    (k == 1 || k == 2) && k < |w| && 1 <= |w| - k - 1 <= 2
    && AllDigits(w[..k]) && w[k] == '.' && AllDigits(w[k + 1..])
  }

  /** The token test `/^\d{1,2}\.\d{1,2}$/` that keeps a token out of the client name. */
  function IsDateShaped(w: string): (b: bool)
    ensures b ==> 3 <= |w| <= 5 && '.' in w && IsDigit(w[0]) && IsDigit(w[|w| - 1])
  {
    DateShapedAt(w, 1) || DateShapedAt(w, 2)
  }

  /** The digits on either side of a lone dot are the two fields. */
  lemma {:induction false} DateFieldsOfDigits(ds: string, ms: string)
    requires ds != [] && AllDigits(ds) && ms != [] && AllDigits(ms)
    ensures DateFields(ds + ['.'] + ms) == Some(DayMonth(DigitsValue(ds), DigitsValue(ms)))
  {
    assert forall i :: 0 <= i < |ds| ==> ds[i] != '.';
    assert forall i :: 0 <= i < |ms| ==> ms[i] != '.';
    SplitOnFirst(ds, '.', ms);
    SplitOnFree(ms, '.');
    assert SplitOn(ds + ['.'] + ms, '.') == [ds, ms];
    assert ds + [] == ds && ms + [] == ms;
    ParseIntDigitsThen(ds, []);
    ParseIntDigitsThen(ms, []);
  }

  /** Every token the client-name filter drops names a date for `extractDate`: its
      digits either side of the dot are its day and month. */
  lemma {:induction false} DateShapedHasFields(w: string)
    requires IsDateShaped(w)
    ensures exists k: nat :: DateShapedAt(w, k)
              && DateFields(w) == Some(DayMonth(DigitsValue(w[..k]), DigitsValue(w[k + 1..])))
  {
    var k := if DateShapedAt(w, 1) then 1 else 2;
    assert w == w[..k] + ['.'] + w[k + 1..];
    DateFieldsOfDigits(w[..k], w[k + 1..]);
  }

  /** The filter is narrower than `extractDate`: a token with a three-digit day, such
      as `123.4`, names that day of the month but stays in the client name. */
  lemma {:induction false} LongDayIsNotDateShaped(ds: string, ms: string)
    requires |ds| == 3 && AllDigits(ds) && ms != [] && AllDigits(ms)
    ensures DateFields(ds + ['.'] + ms) == Some(DayMonth(DigitsValue(ds), DigitsValue(ms)))
    ensures !IsDateShaped(ds + ['.'] + ms)
  {
    var w := ds + ['.'] + ms;
    DateFieldsOfDigits(ds, ms);
    assert w[1] == ds[1] && w[2] == ds[2];
    NoDotAtOneOrTwo(w);
  }

  lemma {:induction false} NoDotAtOneOrTwo(w: string)
    requires |w| >= 3 && w[1] != '.' && w[2] != '.'
    ensures !IsDateShaped(w)
  {}

  /** `1.2.3` names day 1 of month 2 (the third piece is ignored) but stays in the client name. */
  lemma {:induction false} ThreePiecesIsNotDateShaped()
    ensures DateFields("1.2.3") == Some(DayMonth(1, 2))
    ensures !IsDateShaped("1.2.3")
  {
    ThreePiecesSplit();
    assert "1" + [] == "1" && "2" + [] == "2";
    ParseIntDigitsThen("1", []);
    ParseIntDigitsThen("2", []);
    assert !IsDigit("1.2.3"[3]);
  }

  lemma {:induction false} ThreePiecesSplit()
    ensures SplitOn("1.2.3", '.') == ["1", "2", "3"]
  {
    assert "1.2.3" == "1" + ['.'] + "2.3";
    SplitOnFirst("1", '.', "2.3");
    assert "2.3" == "2" + ['.'] + "3";
    SplitOnFirst("2", '.', "3");
    SplitOnFree("3", '.');
  }

  /** `formatSheetDate`: `getDate()` and `getMonth() + 1`, each padded to two digits,
      joined by a dot; `extractDate` reads any such rendering back as the same day and
      month number. */
  function FormatSheetDate(day: nat, monthIndex: nat): (r: string)
    ensures DateFields(r) == Some(DayMonth(day, monthIndex + 1))
  {
    var ds := PadStart(DecimalString(day), 2, '0');
    var ms := PadStart(DecimalString(monthIndex + 1), 2, '0');
    PadStartValue(DecimalString(day), 2);
    PadStartValue(DecimalString(monthIndex + 1), 2);
    DateFieldsOfDigits(ds, ms);
    ds + "." + ms
  }

  /** For a day and a month below 100 the rendering is a five-character `DD.MM` token,
      one the client-name filter drops. */
  lemma {:induction false} FormatSheetDateRoundTrip(day: nat, monthIndex: nat)
    requires day < 100 && monthIndex + 1 < 100
    ensures |FormatSheetDate(day, monthIndex)| == 5
    ensures IsDateShaped(FormatSheetDate(day, monthIndex))
  {
    var ds := PadStart(DecimalString(day), 2, '0');
    var ms := PadStart(DecimalString(monthIndex + 1), 2, '0');
    PadToTwoDigits(day);
    PadToTwoDigits(monthIndex + 1);
    assert FormatSheetDate(day, monthIndex) == ds + "." + ms;
    TwoDigitFieldsAreDateShaped(ds, ms);
  }

  lemma {:induction false} TwoDigitFieldsAreDateShaped(ds: string, ms: string)
    requires |ds| == 2 && AllDigits(ds) && |ms| == 2 && AllDigits(ms)
    ensures |ds + "." + ms| == 5 && IsDateShaped(ds + "." + ms)
  {
    var r := ds + "." + ms;
    assert r[..2] == ds && r[2] == '.' && r[3..] == ms;
  }

  /** A weekday, 0 for Sunday as `getDay()` counts. */
  type Weekday = d: int | 0 <= d < 7

  /** `weekdays = [1, 3, 5]`: Monday, Wednesday and Friday. */
  predicate IsDeliveryDay(d: Weekday) {
    d == 1 || d == 3 || d == 5
  }

  /** The weekday `i` days after `today`. */
  function DayAfter(today: Weekday, i: nat): Weekday {
    (today + i) % 7
  }

  /** What the loop of `getNextDeliveryDate` returns once it has tried the offsets
      below `i`: the first delivery day from `i` on, or today when none is left. */
  function OffsetFrom(today: Weekday, i: nat): nat
    requires i <= 7
    decreases 7 - i
  {
    if i == 7 then 0
    else if IsDeliveryDay(DayAfter(today, i)) then i
    else OffsetFrom(today, i + 1)
  }

  /** The offset in days from today of the date `getNextDeliveryDate` returns. */
  function DeliveryOffset(today: Weekday): nat {
    OffsetFrom(today, 0)
  }

  /** The search from `i` on finds the first delivery day at or after `i` when there is
      one below 7. */
  lemma {:induction false} OffsetFromFinds(today: Weekday, i: nat, t: nat)
    requires i <= t < 7 && IsDeliveryDay(DayAfter(today, t))
    ensures i <= OffsetFrom(today, i) <= t
    ensures IsDeliveryDay(DayAfter(today, OffsetFrom(today, i)))
    ensures forall j :: i <= j < OffsetFrom(today, i) ==> !IsDeliveryDay(DayAfter(today, j))
    decreases 7 - i
  {
    if IsDeliveryDay(DayAfter(today, i)) {
      assert OffsetFrom(today, i) == i;
    } else {
      assert i < t;
      OffsetFromFinds(today, i + 1, t);
      var o := OffsetFrom(today, i + 1);
      assert OffsetFrom(today, i) == o;
      forall j | i <= j < o
        ensures !IsDeliveryDay(DayAfter(today, j))
      {
        if j == i {
          assert !IsDeliveryDay(DayAfter(today, i));
        }
      }
    }
  }

  /** The date returned is the nearest Monday, Wednesday or Friday from today on, at most
      two days away, so the fallback `return today` after the loop is never reached. */
  lemma {:induction false} DeliveryOffsetIsNearest(today: Weekday)
    ensures DeliveryOffset(today) <= 2
    ensures IsDeliveryDay(DayAfter(today, DeliveryOffset(today)))
    ensures forall j :: 0 <= j < DeliveryOffset(today) ==> !IsDeliveryDay(DayAfter(today, j))
  {
    var t := if IsDeliveryDay(today) then 0
             else if IsDeliveryDay(DayAfter(today, 1)) then 1
             else 2;
    assert IsDeliveryDay(DayAfter(today, t));
    OffsetFromFinds(today, 0, t);
  }

  /** The loop of `getNextDeliveryDate`, on offsets from today. */
  method NextDeliveryOffset(today: Weekday) returns (offset: nat)
    ensures offset == DeliveryOffset(today)
  {
    var i := 0;
    while i < 7
      invariant 0 <= i <= 7
      invariant OffsetFrom(today, i) == DeliveryOffset(today)
    {
      if IsDeliveryDay(DayAfter(today, i)) {
        return i;
      }
      i := i + 1;
    }
    return 0;
  }
}
