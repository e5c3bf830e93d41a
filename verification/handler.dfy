/**
 * The request handler end to end: classification, the report figures, the
 * two message bodies, the mail handed to the transport, and the rule that
 * ties the transport's answer to the log and to the HTTP response.
 */
module Handler {
  import opened Wrappers
  import opened Decimal
  import opened Request
  import opened Report
  import opened WrongList
  import Lines
  import Mime
  import Strings
  import Html

  /**
   * The fixed prose of one view around its dynamic values: the name, the
   * start date, the end date and time, the duration, the score, the
   * percentage and the wrong-answer list, in that order.
   */
  datatype Template = Template(
    head: string,
    afterName: string,
    afterStart: string,
    afterEnd: string,
    afterDuration: string,
    afterScore: string,
    afterPercent: string,
    tail: string)

  /**
   * Everything the handler takes from outside itself: the clock (the
   * default end time `now` and the log time stamp, both already
   * formatted), date formatting, the boundary token, the transport's
   * answer, and the prose of the two views.
   */
  datatype Env = Env(
    now: string,
    logStamp: string,
    formatDate: string -> string,
    formatDateTime: string -> string,
    boundary: string,
    mailSent: bool,
    htmlTemplate: Template,
    plainTemplate: Template)

  /** The JSON reply: `success`, and the `message` or `error` text. */
  datatype Reply = Reply(success: bool, text: string)

  /** The arguments handed to `mail()`. */
  datatype Mail = Mail(to: string, subject: string, message: string, headers: string)

  /** Status code, JSON reply (none for a preflight), the mail attempted, the log lines appended. */
  datatype Response = Response(status: int, reply: Option<Reply>, mail: Option<Mail>, log: seq<string>)

  const Recipient: string := "kontakt@inovit.com.pl"
  const SubjectPrefix: string := "Szkolenie dla nowego pracownika - "
  const MethodNotAllowedText: string := "Metoda niedozwolona. Użyj POST."
  const MissingFieldsText: string := "Brak wymaganych danych (firstName, lastName, trainingDate)"
  const SentText: string := "Email wysłany pomyślnie"
  const SendFailedText: string := "Błąd wysyłania emaila"

  /** The values the report shows, computed once and used by both views and the log. */
  datatype Figures = Figures(
    name: string,
    startDate: string,
    endDateTime: string,
    duration: string,
    score: int,
    total: int,
    percentage: int,
    wrongHtml: string,
    wrongPlain: string)

  function FiguresOf(s: Submission, env: Env): (f: Figures)
    ensures f.name == s.firstName + " " + s.lastName
    ensures f.startDate == env.formatDate(s.trainingDate)
    ensures f.endDateTime == env.formatDateTime(s.endTime)
    ensures f.score == s.score && f.total == s.total
    ensures |s.wrong| == 0 ==> f.wrongHtml == EmptyHtml && f.wrongPlain == EmptyPlain
    ensures |s.wrong| > 0 ==> f.wrongHtml == Concat(LinesFor(s.wrong, HtmlLine))
    ensures |s.wrong| > 0 ==> f.wrongPlain == Concat(LinesFor(s.wrong, PlainLine))
    ensures s.duration >= 0 ==> ReadsAsDuration(f.duration, s.duration)
    ensures s.total > 0 ==> IsRoundedPercent(s.score, s.total, f.percentage)
    ensures s.total <= 0 ==> f.percentage == 0
  {
    ViewsInOrder(s.wrong);
    Figures(
      s.firstName + " " + s.lastName,
      env.formatDate(s.trainingDate),
      env.formatDateTime(s.endTime),
      FormatDuration(s.duration),
      s.score,
      s.total,
      Percentage(s.score, s.total),
      RenderHtml(s.wrong),
      RenderPlain(s.wrong))
  }

  /**
   * One view: the template's prose with the figures in their places. It
   * opens with the greeting prose and the trainee's name, and closes with
   * the wrong-answer list and the closing prose.
   */
  function Fill(t: Template, f: Figures, wrong: string): (r: string)
    ensures Strings.StartsWith(r, t.head + f.name + t.afterName)
    ensures Strings.EndsWith(r, wrong + t.tail)
  {
    var opening := t.head + f.name + t.afterName;
    var middle := f.startDate + t.afterStart + f.endDateTime + t.afterEnd
      + f.duration + " min" + t.afterDuration
      + IntToString(f.score) + "/" + IntToString(f.total) + t.afterScore
      + IntToString(f.percentage) + "%" + t.afterPercent;
    var r := opening + middle + wrong + t.tail;
    assert r[..|opening|] == opening;
    assert r[|r| - |wrong + t.tail|..] == wrong + t.tail;
    r
  }

  function HtmlBody(f: Figures, env: Env): string {
    Fill(env.htmlTemplate, f, f.wrongHtml)
  }

  function PlainBody(f: Figures, env: Env): string {
    Fill(env.plainTemplate, f, f.wrongPlain)
  }

  function MailFor(f: Figures, env: Env): Mail {
    Mail(
      Recipient,
      SubjectPrefix + f.name,
      Mime.Message(env.boundary, PlainBody(f, env), HtmlBody(f, env)),
      Mime.Headers(env.boundary))
  }

  /** `date('Y-m-d H:i:s') . " | SUCCESS | first last | Wynik: s/t (p%) | Czas: MM:SS\n"`. */
  function LogLine(stamp: string, f: Figures): string {
    stamp + " | SUCCESS | " + f.name + " | Wynik: " + IntToString(f.score) + "/" + IntToString(f.total)
    + " (" + IntToString(f.percentage) + "%) | Czas: " + f.duration + "\n"
  }

  /**
   * The log entry is terminated by a line feed and holds no other one
   * exactly when neither sanitised name does: the time stamp, the numbers
   * and the duration are single-line, but `trim` only cuts the ends of a
   * name, so an inner line feed in a name splits the entry across lines of
   * the log file.
   */
  lemma LogEntryLines(stamp: string, s: Submission, env: Env)
    requires '\n' !in stamp
    ensures var l := LogLine(stamp, FiguresOf(s, env));
      && |l| > 0 && l[|l| - 1] == '\n'
      && ('\n' !in l[..|l| - 1] <==> '\n' !in s.firstName && '\n' !in s.lastName)
  {
    var f := FiguresOf(s, env);
    var l := LogLine(stamp, f);
    var head := stamp + " | SUCCESS | " + f.name + " | Wynik: " + IntToString(f.score) + "/" + IntToString(f.total)
      + " (" + IntToString(f.percentage) + "%) | Czas: " + f.duration;
    assert l == head + "\n";
    assert l[..|l| - 1] == head;
    NumberOneLine(f.score);
    NumberOneLine(f.total);
    NumberOneLine(f.percentage);
    DurationOneLine(s.duration);
    assert '\n' !in " | SUCCESS | " && '\n' !in " | Wynik: " && '\n' !in "/";
    assert '\n' !in " (" && '\n' !in "%) | Czas: " && '\n' !in " ";
  }

  /** A first name with an inner line feed keeps it through sanitising, so it reaches the log entry. */
  lemma InnerLineFeedKept()
    ensures Html.Sanitize("A\nB") == "A\nB"
  {
    SanitizePlainName("A\nB");
  }

  /**
   * Sanitising keeps CR, LF and `-`, so a submitted name can hold a
   * delimiter line of the mail's boundary, whichever boundary that is;
   * `AcceptedMail` then does not apply.
   */
  lemma DelimiterInName(name: string, sep: string)
    requires name == Mime.Line("a", Mime.Line(Mime.Delimiter(sep), "b"))
    requires Html.NoSpecial(sep) && '\r' !in sep
    ensures Html.Sanitize(name) == name
    ensures !Mime.NoDelimiterLine(name, sep)
  {
    var line := Mime.Delimiter(sep);
    assert Html.NoSpecial(name) by {
      assert name == "a" + "\r\n" + "--" + sep + "\r\n" + "b";
      forall k | 0 <= k < |name| ensures !Html.IsSpecial(name[k]) {
        if 5 <= k < 5 + |sep| {
          assert name[k] == sep[k - 5];
        }
      }
    }
    assert name[0] == 'a' && name[|name| - 1] == 'b';
    SanitizePlainName(name);
    assert '\r' !in line by {
      assert line == "--" + sep;
    }
    Mime.SplitLineCons("a", Mime.Line(line, "b"));
    Mime.SplitLineCons(line, "b");
    assert Lines.Split(name, Lines.CRLF)[1] == line;
  }

  /** Text made of digits, signs and colons only has no line feed. */
  lemma NumeralOneLine(s: string)
    requires forall k :: 0 <= k < |s| ==> IsDigit(s[k]) || s[k] == '-' || s[k] == ':'
    ensures '\n' !in s
  {
  }

  lemma NumberOneLine(i: int)
    ensures '\n' !in IntToString(i)
  {
    var s := IntToString(i);
    forall k | 0 <= k < |s| ensures IsDigit(s[k]) || s[k] == '-' {
      if i < 0 && k > 0 {
        assert s[k] == s[1..][k - 1];
      }
    }
    NumeralOneLine(s);
  }

  lemma DurationOneLine(d: int)
    ensures '\n' !in FormatDuration(d)
  {
    PadOneLine(d / 60);
    PadOneLine(PhpMod(d, 60));
  }

  lemma PadOneLine(n: int)
    ensures '\n' !in ZeroPad2(n)
  {
    var s := ZeroPad2(n);
    forall k | 0 <= k < |s| ensures IsDigit(s[k]) || s[k] == '-' {
      if n < 0 && k > 0 {
        assert s[k] == s[1..][k - 1];
      }
    }
    NumeralOneLine(s);
  }

  /**
   * After the mail has been handed over: a log line is appended exactly when
   * the transport accepted it, and the reply is 200 with `success: true`
   * exactly then, 500 with `success: false` otherwise.
   */
  function Conclude(mail: Mail, stamp: string, f: Figures, sent: bool): (r: Response)
    ensures r.mail == Some(mail)
    ensures r.log != [] <==> sent
    ensures sent ==> r.log == [LogLine(stamp, f)]
    ensures r.status == 200 <==> sent
    ensures r.status == 500 <==> !sent
    ensures r.reply.Some? && (r.reply.value.success <==> sent)
  {
    if sent then Response(200, Some(Reply(true, SentText)), Some(mail), [LogLine(stamp, f)])
    else Response(500, Some(Reply(false, SendFailedText)), Some(mail), [])
  }

  /**
   * The whole handler. A preflight answers 200 with no body; any other
   * method but POST gets 405; a POST without the required fields gets 400;
   * in none of these is mail attempted or a line logged. Otherwise one mail
   * is built and attempted, and the outcome rule decides the rest.
   */
  function Handle(verb: string, body: Option<Body>, env: Env): (r: Response)
    ensures verb == "OPTIONS" ==> r == Response(200, None, None, [])
    ensures verb != "OPTIONS" && verb != "POST" ==>
      r == Response(405, Some(Reply(false, MethodNotAllowedText)), None, [])
    ensures verb == "POST" && !HasRequired(body) ==>
      r == Response(400, Some(Reply(false, MissingFieldsText)), None, [])
    ensures r.mail.Some? <==> verb == "POST" && HasRequired(body)
    ensures r.log != [] <==> verb == "POST" && HasRequired(body) && env.mailSent
    ensures |r.log| <= 1
    ensures r.mail.Some? ==> (r.status == 200 <==> env.mailSent) && (r.status == 500 <==> !env.mailSent)
    ensures r.reply.Some? ==> (r.reply.value.success <==> r.status == 200)
  {
    match Classify(verb, body, env.now)
    case Preflight => Response(200, None, None, [])
    case MethodNotAllowed => Response(405, Some(Reply(false, MethodNotAllowedText)), None, [])
    case BadRequest => Response(400, Some(Reply(false, MissingFieldsText)), None, [])
    case Accept(s) =>
      var f := FiguresOf(s, env);
      Conclude(MailFor(f, env), env.logStamp, f, env.mailSent)
  }

  /**
   * An accepted request mails the fixed recipient, with the trainee's name
   * in the subject, and its headers announce the boundary in use whenever
   * that boundary is a single line.
   */
  lemma AcceptedMailHeaders(verb: string, body: Option<Body>, env: Env)
    requires verb == "POST" && HasRequired(body)
    requires '\r' !in env.boundary
    ensures var r := Handle(verb, body, env);
      var s := Normalise(body.value, env.now);
      && r.mail.Some?
      && r.mail.value.to == Recipient
      && r.mail.value.subject == SubjectPrefix + (s.firstName + " " + s.lastName)
      && Mime.BoundaryParameter(r.mail.value.headers) == Some(env.boundary)
  {
    var f := FiguresOf(Normalise(body.value, env.now), env);
    assert Handle(verb, body, env).mail == Some(MailFor(f, env));
    Mime.HeadersAnnounceBoundary(env.boundary);
  }

  /**
   * The body of an accepted request's mail reads back as the plain view
   * followed by the HTML view, when the boundary is a single line occurring
   * in neither view.
   */
  lemma AcceptedMail(verb: string, body: Option<Body>, env: Env)
    requires verb == "POST" && HasRequired(body)
    requires '\r' !in env.boundary
    requires var f := FiguresOf(Normalise(body.value, env.now), env);
      Strings.Absent(env.boundary, PlainBody(f, env)) && Strings.Absent(env.boundary, HtmlBody(f, env))
    ensures var r := Handle(verb, body, env);
      var f := FiguresOf(Normalise(body.value, env.now), env);
      && r.mail.Some?
      && Mime.ParseMultipart(r.mail.value.message, env.boundary)
         == Some([Mime.Part([Mime.PlainType, Mime.Encoding], PlainBody(f, env)),
                  Mime.Part([Mime.HtmlType, Mime.Encoding], HtmlBody(f, env))])
  {
    var f := FiguresOf(Normalise(body.value, env.now), env);
    Mime.AbsentBoundaryNoDelimiterLine(PlainBody(f, env), env.boundary);
    Mime.AbsentBoundaryNoDelimiterLine(HtmlBody(f, env), env.boundary);
    Mime.MessageRoundTrip(env.boundary, PlainBody(f, env), HtmlBody(f, env));
  }

  const JanKowalski: Body :=
    Body(Some("Jan"), Some("Kowalski"), Some("2024-01-15"), Some(10), Some(12), Some(95), None, None)

  /** The documented submission: Jan Kowalski, 10 of 12 in 95 seconds, mail sent. */
  lemma JanKowalskiLogged(env: Env)
    requires env.mailSent
    ensures Handle("POST", Some(JanKowalski), env).log
      == [env.logStamp + " | SUCCESS | " + "Jan Kowalski" + " | Wynik: " + "10" + "/" + "12"
          + " (" + "83" + "%) | Czas: " + "01:35" + "\n"]
  {
    var s := Normalise(JanKowalski, env.now);
    JanKowalskiNames(env.now);
    var f := FiguresOf(s, env);
    JanKowalskiFigures(s, env);
    LogLineExample(env.logStamp, f);
  }

  lemma JanKowalskiNames(now: string)
    ensures var s := Normalise(JanKowalski, now);
      s.firstName == "Jan" && s.lastName == "Kowalski" && s.score == 10 && s.total == 12 && s.duration == 95
  {
    PlainFirstName();
    PlainLastName();
  }

  lemma PlainFirstName()
    ensures Html.Sanitize("Jan") == "Jan"
  {
    SanitizePlainName("Jan");
  }

  lemma PlainLastName()
    ensures Html.Sanitize("Kowalski") == "Kowalski"
  {
    SanitizePlainName("Kowalski");
  }

  lemma JanKowalskiFigures(s: Submission, env: Env)
    requires s.firstName == "Jan" && s.lastName == "Kowalski" && s.score == 10 && s.total == 12 && s.duration == 95
    ensures var f := FiguresOf(s, env);
      f.name == "Jan Kowalski" && f.duration == "01:35" && f.score == 10 && f.total == 12 && f.percentage == 83
  {
    FormatDurationExample();
    PercentageExamples();
  }

  lemma LogLineExample(stamp: string, f: Figures)
    requires f.name == "Jan Kowalski" && f.duration == "01:35" && f.score == 10 && f.total == 12 && f.percentage == 83
    ensures LogLine(stamp, f) == stamp + " | SUCCESS | " + "Jan Kowalski" + " | Wynik: " + "10" + "/" + "12"
                                + " (" + "83" + "%) | Czas: " + "01:35" + "\n"
  {
    assert IntToString(10) == "10" && IntToString(12) == "12" && IntToString(83) == "83";
  }

  /** A name with no surrounding blanks and no special characters is left as it is. */
  lemma SanitizePlainName(name: string)
    requires Strings.Untrimmable(name) && Html.NoSpecial(name)
    ensures Html.Sanitize(name) == name
  {
    assert Strings.IsTrimOf(name, name) by {
      assert name[0..|name|] == name;
      assert name[..0] == [] && name[|name|..] == [];
      assert Strings.TrimCut(name, name, 0, |name|);
    }
    Strings.TrimUnique(name, name, Strings.Trim(name));
  }
}
