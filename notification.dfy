/** The notification routing of the Compass checker's `main`: which channels
    are used for a verdict, with what addresses and text. The senders
    themselves (SMTP, the LINE push API) are not part of this model. */
module Notification {
  import opened Text
  import opened CellClassifier
  import opened CheckDate
  import opened MonthLocator
  import opened CompassChecker

  const CompassUrl: string := "https://art-ap.passes.jp/user/e/compass/tickets"
  const ErrorPrefix: string := "エラー: "
  const SubjectPrefix: string := "コンパス空き: "
  const BodyHeading: string := "【コンパス空き情報】\n"

  /** The raw values of `LINE_CHANNEL_ACCESS_TOKEN`, `LINE_USER_ID`,
      `GMAIL_USER`, `GMAIL_APP_PASSWORD`, `NOTIFY_EMAIL` and
      `LINE_NOTIFY_ALWAYS`; an unset variable is `""`. */
  datatype Settings = Settings(
    lineToken: string, lineUser: string, gmailUser: string,
    gmailPassword: string, notifyEmail: string, notifyAlways: string)

  /** `has_slots` and `detail` after `check_availability`. */
  datatype Checked = Checked(hasSlots: bool, detail: string)

  /** main.py:268-273: an exception, with text `err`, becomes a negative
      result whose detail starts with "エラー: ". A verdict can be read back
      from the pair, and so can the exception's text. */
  function Detail(r: CheckResult, err: string): (c: Checked)
    ensures r.Verdict? ==> r == Verdict(c.hasSlots, c.detail)
    ensures r.Raised? ==> !c.hasSlots && |c.detail| >= |ErrorPrefix|
                          && c.detail[..|ErrorPrefix|] == ErrorPrefix && c.detail[|ErrorPrefix|..] == err
  {
    match r
    case Verdict(a, m) => Checked(a, m)
    case Raised => Checked(false, ErrorPrefix + err)
  }

  /** What `main` learns from `check_availability` on a page that starts at
      `v`: `has_slots` is set only when the page the navigation ended on has
      an element with an available marker and no unavailable one, and then
      the detail is the availability message; a page that does not load
      gives its load message. */
  lemma CompassDetail(v: View, load: Load, respond: (View, Click) -> Option<View>, t: IsoDate, err: string)
    ensures var c := Detail(CompassOutcome(v, load, respond, t), err);
            var els := Navigate(v, CalendarOf, respond, t, MaxClicks).final.elements;
            && (c.hasSlots ==>
                  && load.Loaded? && c.detail == t.Text() + CellClassifier.AvailableText
                  && exists e :: e in els && e.readable
                                 && HasAny(Strip(e.text), SlotMarks) && !HasAny(Strip(e.text), NoSlotMarks))
            && (load.Timeout? ==> c == Checked(false, TimeoutText))
            && (load.Failed? ==> c == Checked(false, OpenFailedText + load.desc))
  {
    AvailableNeedsMarker(v, load, respond, t);
    if load.Loaded? {
      var els := Navigate(v, CalendarOf, respond, t, MaxClicks).final.elements;
      ReportPrecedence(t.Text(), Classify(els, t.Text(), DayNumber(t), t.dayText));
    } else {
      LoadFailureIsNegative(v, load, respond, t);
    }
  }

  /** `LINE_NOTIFY_ALWAYS` is on: stripped and lower-cased it is "1", "true"
      or "yes". No character outside ASCII lower-cases to an ASCII letter of
      these words, so ASCII case folding decides the same. */
  predicate NotifyAlways(raw: string)
  {
    AsciiLower(Strip(raw)) in ["1", "true", "yes"]
  }

  /** The recipient: `NOTIFY_EMAIL` stripped, or else the Gmail user. */
  function Recipient(s: Settings): string
  {
    var e := Strip(s.notifyEmail);
    if e != "" then e else Strip(s.gmailUser)
  }

  datatype Mail = Mail(to: string, from: string, password: string, subject: string, body: string)

  datatype LinePush = LinePush(token: string, to: string, text: string)

  /** What `main` does after printing the detail: the mail it sends, the
      LINE message it pushes and whether it prints the "not configured"
      notice. */
  datatype Dispatch = Dispatch(mail: Option<Mail>, line: Option<LinePush>, unconfiguredNotice: bool)

  /** `f"【コンパス空き情報】\n{detail}\n{COMPASS_URL}"`. */
  function MessageBody(detail: string): string
  {
    BodyHeading + detail + "\n" + CompassUrl
  }

  /** `f"コンパス空き: {detail.split(chr(10))[0]}"`. */
  function Subject(detail: string): string
  {
    SubjectPrefix + FirstField(detail, '\n')
  }

  /** main.py:264-299. */
  function Route(s: Settings, c: Checked): Dispatch
  {
    if !(c.hasSlots || NotifyAlways(s.notifyAlways)) then Dispatch(None, None, false)
    else
      var token, user := Strip(s.lineToken), Strip(s.lineUser);
      var gUser, gPass, to := Strip(s.gmailUser), Strip(s.gmailPassword), Recipient(s);
      var body := MessageBody(c.detail);
      var mail := if gUser != "" && gPass != "" && to != "" then Some(Mail(to, gUser, gPass, Subject(c.detail), body)) else None;
      var line := if token != "" && user != "" then Some(LinePush(token, user, body)) else None;
      Dispatch(mail, line, !(token != "" && user != "") && !(gUser != "" && gPass != ""))
  }

  /** Nothing is sent and nothing is printed about channels unless there
      are slots or `LINE_NOTIFY_ALWAYS` is on. */
  lemma SilentUnlessNotifying(s: Settings, c: Checked)
    ensures !(c.hasSlots || NotifyAlways(s.notifyAlways)) <==> Route(s, c) == Dispatch(None, None, false)
  {
    if c.hasSlots || NotifyAlways(s.notifyAlways) {
      var d := Route(s, c);
      if Strip(s.gmailUser) != "" && Strip(s.gmailPassword) != "" {
        assert d.mail.Some?;
      }
    }
  }

  /** When notifying, a mail goes out exactly when the Gmail user and the app
      password are set: the recipient is never empty then, since it falls
      back to the user. It goes to `NOTIFY_EMAIL` when that is set. */
  lemma MailNeedsUserAndPassword(s: Settings, c: Checked)
    requires c.hasSlots || NotifyAlways(s.notifyAlways)
    ensures Route(s, c).mail.Some? <==> Strip(s.gmailUser) != "" && Strip(s.gmailPassword) != ""
    ensures Route(s, c).mail.Some? ==>
              var m := Route(s, c).mail.value;
              && m.to == (if Strip(s.notifyEmail) != "" then Strip(s.notifyEmail) else Strip(s.gmailUser))
              && m.from == Strip(s.gmailUser) && m.password == Strip(s.gmailPassword)
  {
  }

  /** When notifying, LINE is used exactly when the token and the user id are
      set, and the notice is printed exactly when neither channel is
      configured. */
  lemma LineNeedsTokenAndUser(s: Settings, c: Checked)
    requires c.hasSlots || NotifyAlways(s.notifyAlways)
    ensures Route(s, c).line.Some? <==> Strip(s.lineToken) != "" && Strip(s.lineUser) != ""
    ensures Route(s, c).unconfiguredNotice <==> Route(s, c).mail.None? && Route(s, c).line.None?
  {
    MailNeedsUserAndPassword(s, c);
  }

  /** Both channels carry the same body, which holds the whole detail; the
      subject is the detail's whole first line: it holds no line break, and
      the detail either ends after it or goes on with a line break. The LINE
      message goes to the stripped token and user id, with or without a
      mail. */
  lemma MessageContents(s: Settings, c: Checked)
    ensures Route(s, c).mail.Some? ==>
              var m := Route(s, c).mail.value;
              var k := |m.subject| - |SubjectPrefix|;
              && m.body == BodyHeading + c.detail + "\n" + CompassUrl
              && m.subject[..|SubjectPrefix|] == SubjectPrefix
              && 0 <= k <= |c.detail| && c.detail[..k] == m.subject[|SubjectPrefix|..]
              && (forall i :: |SubjectPrefix| <= i < |m.subject| ==> m.subject[i] != '\n')
              && (k < |c.detail| ==> c.detail[k] == '\n')
    ensures Route(s, c).line.Some? ==>
              Route(s, c).line.value == LinePush(Strip(s.lineToken), Strip(s.lineUser), BodyHeading + c.detail + "\n" + CompassUrl)
    ensures Route(s, c).mail.Some? && Route(s, c).line.Some? ==> Route(s, c).mail.value.body == Route(s, c).line.value.text
  {
    if Route(s, c).mail.Some? {
      var m := Route(s, c).mail.value;
      var f := FirstField(c.detail, '\n');
      assert m.subject == SubjectPrefix + f;
      assert m.subject[|SubjectPrefix|..] == f;
      forall i | |SubjectPrefix| <= i < |m.subject| ensures m.subject[i] != '\n' {
        assert m.subject[i] == f[i - |SubjectPrefix|];
      }
    }
  }
}
