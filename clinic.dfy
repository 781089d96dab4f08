/** The clinic checker: `check_clinic_availability` over an abstract browser
    session, the `M/D` day match and the mark test, and the LINE message its
    `main` sends. */
module ClinicChecker {
  import opened Text
  import opened CheckDate

  const ClinicUrl: string := "https://matsumotowomens.reserve.ne.jp/sp/index.php"
  const OverseasNotice: string := "Access from overseas is prohibited"
  const BlockedText: string := "❌ エラー: プロキシが機能せず、海外アクセスとして遮断されました。"
  const NoButtonText: string := "❌ ボタンが見つかりませんでした。"
  const AvailablePrefix: string := "【空きあり】"
  const AvailableText: string := " に予約可能な枠があります！"
  const NotFoundText: string := " は空きが見つかりませんでした。"
  const RunErrorPrefix: string := "実行エラー: "
  const NoticeHeading: string := "🏥 クリニック空き情報\n"

  /** Marks of a bookable slot. */
  const OpenMarks: seq<string> := ["○", "◯", "△", "予約", "空き"]

  /** `f"{int(m)}/{int(d)}"`: month and day without leading zeros. */
  function ShortDate(t: IsoDate): string
  {
    NatToString(t.date.month) + "/" + NatToString(t.date.day)
  }

  /** Splitting at a separator the first part does not contain gives it back. */
  lemma {:induction false} FirstFieldOfJoin(a: string, b: string, sep: char)
    requires sep !in a
    ensures FirstField(a + [sep] + b, sep) == a
    decreases |a|
  {
    if a != [] {
      assert (a + [sep] + b)[1..] == a[1..] + [sep] + b;
      FirstFieldOfJoin(a[1..], b, sep);
    }
  }

  /** The short date splits at its `/` into the decimal month and day, neither
      with a leading zero. */
  lemma ShortDateParts(t: IsoDate)
    requires WellFormed(t)
    ensures var s := ShortDate(t);
            var m := FirstField(s, '/');
            && |m| < |s| && s[|m|] == '/'
            && AllDigits(m) && DecimalValue(m) == t.date.month && m[0] != '0'
            && AllDigits(s[|m| + 1..]) && DecimalValue(s[|m| + 1..]) == t.date.day && s[|m| + 1] != '0'
  {
    var m, d := NatToString(t.date.month), NatToString(t.date.day);
    NatToStringDecimal(t.date.month);
    NatToStringDecimal(t.date.day);
    assert '/' !in m by {
      forall i | 0 <= i < |m| ensures m[i] != '/' {
        assert IsDigit(m[i]);
      }
    }
    FirstFieldOfJoin(m, d, '/');
    assert ShortDate(t) == m + ['/'] + d;
    assert ShortDate(t)[|m| + 1..] == d;
  }

  /** The filter `^{int(d)}$|{short_date}`: the whole text is the day, or the
      text contains the short date anywhere. */
  predicate DayMatches(text: string, t: IsoDate)
  {
    text == NatToString(t.date.day) || Contains(text, ShortDate(t))
  }

  /** `.first` of the day-cell locator. */
  function FirstDayCell(cells: seq<string>, t: IsoDate): (r: Option<nat>)
    ensures r.Some? ==> r.value < |cells| && DayMatches(cells[r.value], t)
                        && forall j :: 0 <= j < r.value ==> !DayMatches(cells[j], t)
    ensures r.None? ==> forall j :: 0 <= j < |cells| ==> !DayMatches(cells[j], t)
  {
    if cells == [] then None
    else if DayMatches(cells[0], t) then Some(0)
    else match FirstDayCell(cells[1..], t)
      case None => None
      case Some(k) => Some(k + 1)
  }

  /** The `M/D` alternative is not anchored: a text holding the short date
      anywhere, whatever surrounds it, matches. So for a target in January or
      February, the cell "11/D" or "12/D" of the same day in November or
      December matches as well. */
  lemma ShortDateUnanchored(t: IsoDate, before: string, after: string)
    ensures DayMatches(before + ShortDate(t) + after, t)
    ensures 1 <= t.date.month <= 2 ==>
              && "1" + ShortDate(t) == NatToString(t.date.month + 10) + "/" + NatToString(t.date.day)
              && DayMatches("1" + ShortDate(t), t)
  {
    var d := ShortDate(t);
    var s := before + d + after;
    assert s[|before|..|before| + |d|] == d;
    assert OccursAt(s, d, |before|);
    ContainsIff(s, d);
    if 1 <= t.date.month <= 2 {
      assert ("1" + d)[1..1 + |d|] == d;
      assert OccursAt("1" + d, d, 1);
      ContainsIff("1" + d, d);
      assert NatToString(t.date.month + 10) == "1" + NatToString(t.date.month);
    }
  }

  /** clinic_main.py:85-89: with newlines replaced by spaces, some open mark
      and neither "×" nor "満". */
  predicate MarkedAvailable(raw: string)
  {
    var text := ReplaceChar(raw, '\n', ' ');
    HasAny(text, OpenMarks) && !Contains(text, "×") && !Contains(text, "満")
  }

  /** Replacing newlines by spaces does not change whether a string without
      either character occurs. */
  lemma ReplaceKeepsOccurrences(s: string, m: string)
    requires '\n' !in m && ' ' !in m
    ensures Contains(ReplaceChar(s, '\n', ' '), m) <==> Contains(s, m)
  {
    var r := ReplaceChar(s, '\n', ' ');
    ContainsIff(s, m);
    ContainsIff(r, m);
    forall i | OccursAt(s, m, i) ensures OccursAt(r, m, i) {
      forall j | 0 <= j < |m| ensures r[i + j] == m[j] {
        assert s[i + j] == s[i..i + |m|][j];
      }
      assert r[i..i + |m|] == m;
    }
    forall i | OccursAt(r, m, i) ensures OccursAt(s, m, i) {
      forall j | 0 <= j < |m| ensures s[i + j] == m[j] {
        assert r[i + j] == r[i..i + |m|][j];
      }
      assert s[i..i + |m|] == m;
    }
  }

  /** The newline replacement is immaterial to the mark test. */
  lemma MarkTestIgnoresNewlines(raw: string)
    ensures MarkedAvailable(raw) <==> HasAny(raw, OpenMarks) && !Contains(raw, "×") && !Contains(raw, "満")
  {
    var text := ReplaceChar(raw, '\n', ' ');
    forall k | 0 <= k < |OpenMarks| ensures Contains(text, OpenMarks[k]) <==> Contains(raw, OpenMarks[k]) {
      ReplaceKeepsOccurrences(raw, OpenMarks[k]);
    }
    ReplaceKeepsOccurrences(raw, "×");
    ReplaceKeepsOccurrences(raw, "満");
  }

  /** The actions of the session that can raise, in the order they run:
      opening the page (with its settle wait and screenshot), reading the
      body, counting the 再診(婦人科) items, clicking the first of them (with
      the wait after it), clicking 次へ (a missing 次へ button makes this
      click time out), waiting for the network to go idle (with the wait
      after it), counting the day cells, and reading the first of them. */
  datatype ClinicStep = Open | ReadBody | CountRevisit | PressRevisit | PressNext | AwaitIdle | CountDay | ReadDay

  const AllSteps: seq<ClinicStep> := [Open, ReadBody, CountRevisit, PressRevisit, PressNext, AwaitIdle, CountDay, ReadDay]

  /** The site as the session meets it: the error text of each action that
      raises, the body text, whether a 再診(婦人科) item exists, and the texts
      of the day-cell candidates after the two clicks. */
  datatype ClinicSite = ClinicSite(failures: map<ClinicStep, string>, body: string, revisit: bool, cells: seq<string>)

  /** `(success, message)` and the actions performed. */
  datatype ClinicRun = ClinicRun(success: bool, message: string, steps: seq<ClinicStep>)

  function Failed(site: ClinicSite, steps: seq<ClinicStep>): ClinicRun
    requires |steps| > 0 && steps[|steps| - 1] in site.failures
  {
    ClinicRun(false, RunErrorPrefix + site.failures[steps[|steps| - 1]], steps)
  }

  /** clinic_main.py:51-71 up to the first click: the run when the session
      ends before it, None when it goes on to click 再診(婦人科). */
  function Landing(site: ClinicSite): Option<ClinicRun>
  {
    var f := site.failures;
    if Open in f then Some(Failed(site, [Open]))
    else if ReadBody in f then Some(Failed(site, [Open, ReadBody]))
    else if Contains(site.body, OverseasNotice) then Some(ClinicRun(false, BlockedText, [Open, ReadBody]))
    else if CountRevisit in f then Some(Failed(site, LandingSteps))
    else if !site.revisit then Some(ClinicRun(false, NoButtonText, LandingSteps))
    else None
  }

  /** The actions of a landing that goes on to the first click. */
  const LandingSteps: seq<ClinicStep> := [Open, ReadBody, CountRevisit]

  /** clinic_main.py:67-92 from the first click on; its steps are those
      after the landing's. */
  function Booking(site: ClinicSite, t: IsoDate): ClinicRun
  {
    var date := t.Text();
    var f := site.failures;
    if PressRevisit in f then Failed(site, [PressRevisit])
    else if PressNext in f then Failed(site, [PressRevisit, PressNext])
    else if AwaitIdle in f then Failed(site, [PressRevisit, PressNext, AwaitIdle])
    else if CountDay in f then Failed(site, [PressRevisit, PressNext, AwaitIdle, CountDay])
    else match FirstDayCell(site.cells, t)
      case None => ClinicRun(false, date + NotFoundText, [PressRevisit, PressNext, AwaitIdle, CountDay])
      case Some(k) =>
        var steps := [PressRevisit, PressNext, AwaitIdle, CountDay, ReadDay];
        if ReadDay in f then Failed(site, steps)
        else if MarkedAvailable(site.cells[k]) then ClinicRun(true, AvailablePrefix + date + AvailableText, steps)
        else ClinicRun(false, date + NotFoundText, steps)
  }

  /** The `try` block of clinic_main.py:49-96 with its early returns. */
  function Clinic(site: ClinicSite, t: IsoDate): ClinicRun
  {
    match Landing(site)
    case Some(r) => r
    case None =>
      var r := Booking(site, t);
      ClinicRun(r.success, r.message, LandingSteps + r.steps)
  }

  /** The browser session: the actions performed so far and whether
      `browser.close()` ran. */
  class ClinicBrowser {
    const site: ClinicSite
    var performed: seq<ClinicStep>
    var closed: bool

    constructor (site: ClinicSite)
      ensures this.site == site && performed == [] && !closed
    {
      this.site := site;
      performed := [];
      closed := false;
    }

    /** Runs one action: its error text when it raises. */
    method Perform(s: ClinicStep) returns (err: Option<string>)
      modifies this
      ensures performed == old(performed) + [s] && closed == old(closed)
      ensures err == if s in site.failures then Some(site.failures[s]) else None
    {
      performed := performed + [s];
      err := if s in site.failures then Some(site.failures[s]) else None;
    }

    method Close()
      modifies this
      ensures closed && performed == old(performed)
    {
      closed := true;
    }
  }

  /** clinic_main.py:51-66: open, read the body, count the 再診(婦人科) items. */
  method Land(b: ClinicBrowser) returns (stop: Option<ClinicRun>)
    modifies b
    ensures stop == Landing(b.site)
    ensures b.performed == old(b.performed) + (if stop.Some? then stop.value.steps else LandingSteps)
    ensures b.closed == old(b.closed)
  {
    var err := b.Perform(Open);
    if err.Some? {
      return Some(ClinicRun(false, RunErrorPrefix + err.value, [Open]));
    }
    err := b.Perform(ReadBody);
    if err.Some? {
      return Some(ClinicRun(false, RunErrorPrefix + err.value, [Open, ReadBody]));
    }
    var content := b.site.body;
    if Contains(content, OverseasNotice) {
      return Some(ClinicRun(false, BlockedText, [Open, ReadBody]));
    }
    err := b.Perform(CountRevisit);
    if err.Some? {
      return Some(ClinicRun(false, RunErrorPrefix + err.value, LandingSteps));
    }
    if !b.site.revisit {
      return Some(ClinicRun(false, NoButtonText, LandingSteps));
    }
    stop := None;
  }

  /** clinic_main.py:67-92: the two clicks, the waits, and the day cell. */
  method Book(b: ClinicBrowser, t: IsoDate) returns (success: bool, message: string)
    modifies b
    ensures var run := Booking(b.site, t);
            success == run.success && message == run.message && b.performed == old(b.performed) + run.steps
    ensures b.closed == old(b.closed)
  {
    var err := b.Perform(PressRevisit);
    if err.Some? {
      return false, RunErrorPrefix + err.value;
    }
    err := b.Perform(PressNext);
    if err.Some? {
      return false, RunErrorPrefix + err.value;
    }
    err := b.Perform(AwaitIdle);
    if err.Some? {
      return false, RunErrorPrefix + err.value;
    }
    err := b.Perform(CountDay);
    if err.Some? {
      return false, RunErrorPrefix + err.value;
    }
    var cell := FirstDayCell(b.site.cells, t);
    if cell.Some? {
      err := b.Perform(ReadDay);
      if err.Some? {
        return false, RunErrorPrefix + err.value;
      }
      if MarkedAvailable(b.site.cells[cell.value]) {
        return true, AvailablePrefix + t.Text() + AvailableText;
      }
    }
    return false, t.Text() + NotFoundText;
  }

  /** The `try`/`except` part of `check_clinic_availability`. */
  method Attempt(b: ClinicBrowser, t: IsoDate) returns (success: bool, message: string)
    modifies b
    ensures var run := Clinic(b.site, t);
            success == run.success && message == run.message && b.performed == old(b.performed) + run.steps
    ensures b.closed == old(b.closed)
  {
    ghost var before := b.performed;
    var stop := Land(b);
    if stop.Some? {
      return stop.value.success, stop.value.message;
    }
    success, message := Book(b, t);
    assert b.performed == before + (LandingSteps + Booking(b.site, t).steps);
  }

  /** `check_clinic_availability`: the attempt, then `browser.close()` in
      the `finally` clause. */
  method CheckClinicAvailability(b: ClinicBrowser, t: IsoDate) returns (success: bool, message: string)
    modifies b
    ensures var run := Clinic(b.site, t);
            success == run.success && message == run.message && b.performed == old(b.performed) + run.steps
    ensures b.closed
  {
    success, message := Attempt(b, t);
    b.Close();
  }

  /** The actions run in the fixed order, up to the first that raises or
      the first early return; a raising action is the last one run and its
      error text is the message. */
  lemma StepsInOrder(site: ClinicSite, t: IsoDate)
    ensures var r := Clinic(site, t);
            && 0 < |r.steps| && r.steps <= AllSteps
            && (forall i :: 0 <= i < |r.steps| - 1 ==> r.steps[i] !in site.failures)
            && (r.steps[|r.steps| - 1] in site.failures ==>
                  r == ClinicRun(false, RunErrorPrefix + site.failures[r.steps[|r.steps| - 1]], r.steps))
  {
    if Landing(site).None? {
      var b := Booking(site, t);
      BookingInOrder(site, t);
      assert AllSteps == LandingSteps + AllSteps[3..];
      var r := Clinic(site, t);
      assert r.steps == LandingSteps + b.steps;
      forall i | 0 <= i < |r.steps| - 1 ensures r.steps[i] !in site.failures {
        if i >= 3 {
          assert r.steps[i] == b.steps[i - 3];
        }
      }
      assert r.steps[|r.steps| - 1] == b.steps[|b.steps| - 1];
    }
  }

  /** The booking part of the run, in its own order. */
  lemma BookingInOrder(site: ClinicSite, t: IsoDate)
    ensures var b := Booking(site, t);
            && 0 < |b.steps| && b.steps <= AllSteps[3..]
            && (forall i :: 0 <= i < |b.steps| - 1 ==> b.steps[i] !in site.failures)
            && (b.steps[|b.steps| - 1] in site.failures ==>
                  b == ClinicRun(false, RunErrorPrefix + site.failures[b.steps[|b.steps| - 1]], b.steps))
  {
    assert AllSteps[3..] == [PressRevisit, PressNext, AwaitIdle, CountDay, ReadDay];
  }

  /** A body announcing the overseas block ends the session before any click,
      whether with the block message or, when reading the body raised, with
      the error. */
  lemma BlockedBeforeAnyClick(site: ClinicSite, t: IsoDate)
    requires Contains(site.body, OverseasNotice)
    ensures var r := Clinic(site, t);
            && !r.success && PressRevisit !in r.steps && PressNext !in r.steps
            && (Open !in site.failures && ReadBody !in site.failures ==> r.message == BlockedText)
  {
  }

  /** Without the 再診(婦人科) item the session ends with its message, unless
      an earlier action raised or the body was blocked. */
  lemma MissingButton(site: ClinicSite, t: IsoDate)
    requires !site.revisit && Open !in site.failures && ReadBody !in site.failures && CountRevisit !in site.failures
    requires !Contains(site.body, OverseasNotice)
    ensures Clinic(site, t) == ClinicRun(false, NoButtonText, [Open, ReadBody, CountRevisit])
  {
  }

  /** Success exactly when every action ran without raising, the body was
      not blocked, and the first cell matching the day passes the mark test;
      no matching cell is a negative result. */
  lemma AvailableIff(site: ClinicSite, t: IsoDate)
    ensures var r := Clinic(site, t);
            var k := FirstDayCell(site.cells, t);
            r.success <==> (forall s: ClinicStep :: s !in site.failures)
                           && !Contains(site.body, OverseasNotice) && site.revisit
                           && k.Some? && MarkedAvailable(site.cells[k.value])
    ensures var r := Clinic(site, t);
            r.success ==> r.message == AvailablePrefix + t.Text() + AvailableText && r.steps == AllSteps
  {
    var r := Clinic(site, t);
    if r.success {
      forall s: ClinicStep ensures s !in site.failures {
        match s
        case Open =>
        case ReadBody =>
        case CountRevisit =>
        case PressRevisit =>
        case PressNext =>
        case AwaitIdle =>
        case CountDay =>
        case ReadDay =>
      }
    }
  }

  /** `main` of the clinic checker: the LINE message it pushes, only on
      success and only when the token and user id (both stripped) are set. */
  datatype Push = Push(token: string, to: string, text: string)

  function ClinicNotice(success: bool, detail: string, tokenRaw: string, userRaw: string): (p: Option<Push>)
    ensures p.Some? ==> success && p.value.token != "" && p.value.to != ""
    ensures p.Some? ==>
              var n := |NoticeHeading|;
              && |p.value.text| == n + |detail| + 1 + |ClinicUrl|
              && p.value.text[n..n + |detail|] == detail
              && p.value.text[n + |detail|] == '\n'
  {
    var token, user := Strip(tokenRaw), Strip(userRaw);
    if success && token != "" && user != "" then Some(Push(token, user, NoticeHeading + detail + "\n" + ClinicUrl)) else None
  }

  /** What the clinic's `main` pushes after `check_clinic_availability`: a
      message exactly when the session found the first matching cell marked
      with every action succeeding, and both credentials are set; it carries
      the availability message for the target date. */
  lemma NoticeOnlyOnSuccess(site: ClinicSite, t: IsoDate, tokenRaw: string, userRaw: string)
    ensures var r := Clinic(site, t);
            var p := ClinicNotice(r.success, r.message, tokenRaw, userRaw);
            var k := FirstDayCell(site.cells, t);
            && (p.Some? <==>
                  (forall s: ClinicStep :: s !in site.failures)
                  && !Contains(site.body, OverseasNotice) && site.revisit
                  && k.Some? && MarkedAvailable(site.cells[k.value])
                  && Strip(tokenRaw) != "" && Strip(userRaw) != "")
            && (p.Some? ==>
                  p.value == Push(Strip(tokenRaw), Strip(userRaw),
                                  NoticeHeading + AvailablePrefix + t.Text() + AvailableText + "\n" + ClinicUrl))
  {
    var r := Clinic(site, t);
    AvailableIff(site, t);
    var p := ClinicNotice(r.success, r.message, tokenRaw, userRaw);
    assert p.Some? <==> r.success && Strip(tokenRaw) != "" && Strip(userRaw) != "";
  }
}
