# Training-completion mail handler, modelled in Dafny

`sendmail.php` is the backend of an HACCP staff-training page. It takes one JSON
submission describing a finished test: trainee name, dates, score, duration and the
wrongly answered questions. It then:

- sanitises the submission;
- computes the report figures;
- renders the wrong-answer list twice, once as HTML and once as plain text;
- assembles a `multipart/alternative` mail with the plain part first and the HTML part
  second, and hands it to `mail()`;
- appends a line to `training-logs.txt` when the transport accepts the mail;
- answers with an HTTP status and a JSON reply.

This project models that whole request path as pure functions and proves the promises
the handler makes.

| module | file | what it holds |
|---|---|---|
| `Wrappers` | `wrappers.dfy` | `Option`, standing in for PHP's `isset` |
| `Decimal` | `decimal.dfy` | decimal rendering of integers, PHP's int-to-string conversion and `sprintf("%02d")` |
| `Strings` | `strings.dfy` | prefixes and absence; PHP `trim` with its default character set, specified by `IsTrimOf` |
| `Html` | `html.dfy` | `htmlspecialchars(…, ENT_QUOTES)`, its inverse, and the trim-then-escape sanitiser |
| `Lines` | `lines.dfy` | splitting on a separator and joining, used to read mail bodies and log-style text back |
| `Request` | `request.dfy` | the decoded body, the defaults for optional fields, and method and field classification |
| `Report` | `report.dfy` | the `MM:SS` duration and the rounded percentage, with PHP's `floor`, `%` and `round` |
| `WrongList` | `wrong_list.dfy` | the per-item placeholders and the HTML and plain wrong-answer lists |
| `Mime` | `mime.dfy` | the additional headers, the two-part body, and a multipart reader for that body |
| `Handler` | `handler.dfy` | figures, the two views, the mail, the log line, the outcome rule and the whole handler |

The outside world is passed in as a parameter record `Handler.Env`:

- the current time (`date('c')`) and the log time stamp (`date('Y-m-d H:i:s')`), both
  already formatted;
- the two date formatters (`DateTime` with `d.m.Y` and `d.m.Y H:i:s`), as functions;
- the boundary token (`md5(time())`);
- the boolean that `mail()` returns;
- the fixed prose of the HTML view and of the plain view, as `Template` values whose
  segments sit between the interpolated figures in the order the source uses.

The request method is a string. The JSON body is `Option<Body>`:

- `None` stands for a body that did not decode to an object.
- Each field is an `Option`; `None` means `isset` is false.
- The numeric fields carry the value after PHP's `(int)` cast.

Four behaviours of the handler are worth knowing, and the model keeps all four:

- The three required fields are tested only with `isset`. A blank or empty name is
  accepted, and it trims to the empty string.
- The percentage is 0 whenever `total <= 0`, so a negative total also yields 0.
- `$nr` of a wrong answer is interpolated without escaping, so `WrongList.EntryOf` keeps
  it unescaped. It is the only submitted text that reaches the HTML view raw.
- `trim` only cuts the ends of a name, and escaping keeps line feeds. A name with an
  inner line feed therefore splits its log entry across two lines of the log file.

## Model

| member | source | states |
|---|---|---|
| Request.Classify | sendmail.php:17-44 | OPTIONS is a preflight exactly when the method is OPTIONS; any other non-POST method is refused; a POST is a bad request exactly when one of firstName, lastName or trainingDate is not set; otherwise it is accepted with the normalised submission |
| Request.Normalise | sendmail.php:47-56 | each required field is markup-free, has every `&` written as an entity, and unescapes to the trimmed input; score, total and duration default to 0, 12 and 0, wrong defaults to the empty list and the end time to the current time |
| Strings.Trim | sendmail.php:47-49 | the result is a contiguous slice of the input, everything cut away is in PHP's default trim set, and the result neither starts nor ends with such a character |
| Strings.TrimUnique | sendmail.php:47-49 | that characterisation admits exactly one result, so it pins `trim` down completely |
| Html.Sanitize | sendmail.php:47-49 | the sanitised field contains no `<`, `>`, `"` or `'`, and every `&` in it opens one of the five entities; decoding the entities gives back exactly the trimmed input; a trimmed input without special characters is returned unchanged |
| Html.UnescapeEscape | sendmail.php:47-49 | decoding the five ENT_QUOTES entities inverts `htmlspecialchars` on every string, so escaping loses nothing |
| Html.SanitizeDetermined | sendmail.php:47-49 | the only text that is markup-free, has no bare `&` and decodes to the trimmed input is the sanitiser's result, so its contract pins it down |
| Html.EscapeUnescape | sendmail.php:80-81 | a string with no markup character and no bare `&` is the escape of its own decoding |
| Html.EscapeIdentity | sendmail.php:80-81 | escaping leaves a string unchanged if and only if it has none of `& < > " '` |
| Decimal.NatToStringValue | sendmail.php:342 | the decimal rendering of a natural number reads back as that number |
| Decimal.IntToStringValue | sendmail.php:342 | the rendering of any integer, minus sign included, reads back as that integer |
| Decimal.ZeroPad2 | sendmail.php:68 | `%02d` gives at least two characters; a value below 100 gives exactly two digits reading back as the value; a longer result has no leading zero; a negative value is `-` followed by the digits of its magnitude, unpadded |
| Report.PhpMod | sendmail.php:67 | PHP `%` truncates: a non-negative dividend gives the Euclidean remainder; a negative one gives the remainder in (-b, 0] left after subtracting the quotient rounded toward zero |
| Report.FormatDuration | sendmail.php:66-68 | for a non-negative duration the text is minutes, a colon and two-digit seconds below 60; the minutes are at least two digits, with no leading zero beyond that width; minutes times 60 plus seconds is the duration |
| Report.DurationTextUnique | sendmail.php:66-68 | exactly one text reads as a given duration, so the contract of `FormatDuration` fixes its output |
| Report.FormatDurationExample | sendmail.php:66-68 | 95 s gives `01:35`, 0 s gives `00:00`, 6000 s gives `100:00` |
| Report.Percentage | sendmail.php:71 | for a positive total the result is the percentage rounded to the nearest integer, with halves away from zero; otherwise it is 0 |
| Report.RoundedPercentUnique | sendmail.php:71 | the rounding characterisation determines the percentage uniquely |
| Report.PercentageBounded | sendmail.php:71 | a score between 0 and the total gives a percentage between 0 and 100 |
| Report.PercentageExamples | sendmail.php:71 | 10/12 gives 83, 13/12 gives 108 (unclamped), 1/8 gives 13, -1/8 gives -13, and a zero or negative total gives 0 |
| WrongList.EntryOf | sendmail.php:79-81 | a missing nr, user or correct becomes `?`, `brak` or `?`; a present user or correct is escaped so that it is markup-free, has no bare `&` and decodes back to the submitted text; nr is kept as given |
| WrongList.AccumulateInOrder | sendmail.php:78-83 | appending the rendered items one by one in a loop yields the concatenation of `LinesFor`, the list of one rendered line per wrong item in submission order |
| WrongList.ViewsInOrder | sendmail.php:74-97 | an empty list renders as the two BRAK texts; otherwise the HTML and plain views are the item lines in submission order |
| WrongList.EscapeKeepsLineFeeds | sendmail.php:93-95 | escaping adds a line feed if and only if the input already had one |
| WrongList.PlainViewLines | sendmail.php:87-97 | when no item text holds a line feed, splitting the plain view at line feeds gives back exactly one line per item, in order, each ending with a line feed; the empty list gives the single BRAK line |
| WrongList.PlainExample | sendmail.php:91-96 | a single fully specified wrong item renders as exactly its one plain line |
| WrongList.HtmlExample | sendmail.php:78-83 | a missing user becomes `brak` and an answer `<b>` is rendered as `&lt;b&gt;` in the HTML line |
| Mime.HeadersAnnounceBoundary | sendmail.php:321-324 | for a one-line boundary, reading the boundary parameter back from the headers gives exactly that boundary |
| Mime.MessageFraming | sendmail.php:327-335 | the body opens with the delimiter line and ends with the closing delimiter |
| Mime.AbsentBoundaryNoDelimiterLine | sendmail.php:327-335 | a view in which the boundary never occurs has no line that a reader could take for a delimiter |
| Mime.MessageRoundTrip | sendmail.php:327-335 | reading the assembled body with its boundary gives exactly two parts: first text/plain in 7bit with the plain view, then text/html in 7bit with the HTML view, each with its content intact |
| Handler.FiguresOf | sendmail.php:51-96 | the report shows the name as first and last name joined by one space, the submitted score and total, the formatted training date and end time, the duration readable as the submitted seconds, the rounded percentage (0 when the total is not positive), and both wrong-answer lists: the BRAK entry when there are no wrong items, otherwise one line per item in submission order |
| Handler.Fill | sendmail.php:206-298 | each view opens with its leading prose followed by the trainee's name, and closes with the wrong-answer list followed by the closing prose |
| Handler.Conclude | sendmail.php:338-359 | a log line is appended if and only if `mail()` reported success, and it is the SUCCESS line for these figures; the status is 200 exactly then and 500 otherwise; the reply's success flag agrees with the outcome |
| Handler.Handle | sendmail.php:17-44 | a preflight gives 200 with no body, another non-POST method gives 405, and a POST missing a field gives 400, each with the source's message and with no mail and no log; in the model, where date formatting always succeeds, mail is attempted if and only if a POST carries all three fields; an entry is logged if and only if that mail was accepted; at most one entry is appended |
| Handler.AcceptedMailHeaders | sendmail.php:100-101 | an accepted request mails the fixed recipient with the trainee's first and last name in the subject, and its headers announce the boundary in use |
| Handler.AcceptedMail | sendmail.php:327-338 | the body of an accepted request's mail reads back as the plain view followed by the HTML view, each with its content intact |
| Handler.LogEntryLines | sendmail.php:342-343 | the log entry ends with a line feed and contains no other line feed exactly when neither sanitised name contains one |
| Handler.DelimiterInName | sendmail.php:47-48 | a name made of `a`, a delimiter line of the boundary and `b` passes sanitising unchanged, and one of its lines is then a delimiter line, for every boundary without special characters or CR |
| Handler.InnerLineFeedKept | sendmail.php:47-48 | a name such as `A`, line feed, `B` passes sanitising unchanged, so its line feed reaches the log entry |
| Handler.JanKowalskiLogged | sendmail.php:341-344 | Jan Kowalski, 10 of 12 correct in 95 s, logs the SUCCESS line with `Jan Kowalski`, `Wynik: 10/12 (83%)` and `Czas: 01:35` after the time stamp |

## Left out

- The HTTP headers at lines 11-14 (CORS and content type) are fixed output with nothing to decide, so they are not modelled.
- Reading `php://input` and `json_decode` are not modelled. The body arrives already decoded as `Option<Body>`, and `None` is a body that did not decode to an object.
- PHP's `(int)` cast of strings, floats and booleans is not modelled. Numeric fields arrive as the integers the cast produced.
- The `nr` of a wrong item holds the text PHP interpolates. A JSON number such as `3` therefore becomes `"3"`.
- A wrong item that is not an array is not modelled, and neither is a `user` or `correct` that is not a string.
- A `wrong` that is not an array is not modelled. A value that `empty` accepts, such as `"0"`, renders the BRAK line. A non-empty string makes the `foreach` render nothing.
- A required field that is not a string or a number is not modelled. `trim` of an array throws at line 47, and the request ends without a JSON reply.
- `htmlspecialchars` returns an empty string for malformed UTF-8, which is not modelled. Dafny strings hold only Unicode scalar values, and `json_decode` already rejects malformed UTF-8 and unpaired surrogate escapes.
- Handler.Handle: `DateTime` parsing and formatting are total functions in `Env`. An unparsable date makes `new DateTime` at line 59 or 62 throw before `mail()` is called. That uncaught exception, a PHP fatal error with no JSON reply, is not modelled, so the mail-attempt rule holds only in the model.
- The clock (`date('c')`, `date('Y-m-d H:i:s')`, `time()`) and `md5` are not modelled. Their results are inputs in `Env`, so the boundary is an arbitrary string.
- `mail()`, `file_put_contents` and `http_response_code` are effects, so they are not modelled. The mail is returned as a value, the transport's answer is an input, and the log lines and status are fields of `Response`.
- The two templates' fixed prose (the styling, the training scope and the company footer) is opaque `Template` segments. Only the order of the interpolated values is modelled.
- Report.FormatDuration: no property is stated for a negative duration. The function still computes PHP's result (floor division, a truncating `%`, and `%02d` without padding for negative numbers).
- Report.FormatDuration: `$duration / 60` at line 66 is a float division when 60 does not divide the duration. The model floors the exact quotient, which can differ from PHP's above 2^53 seconds, where the float quotient is rounded.
- Report.Percentage: PHP computes in floating point and prints `round()`'s float. The model uses exact rational rounding, so representation artefacts near .5 and a printed `-0` are not modelled.
- Mime.MessageRoundTrip: the reader accepts a body that opens with its delimiter line, which is what the handler produces. Preambles, epilogues and transport padding are not modelled.
- Handler.AcceptedMail: the round trip is proved only for a boundary that occurs in neither view, and the source does not ensure that. Sanitising keeps CR, LF and `-`, so a submitted name or answer can carry a delimiter line into both views (`Handler.DelimiterInName`). The boundary `md5(time())` at line 318 can be predicted from the time of the request. A reader then splits the body at that line as well.
- Whether the views are 7bit-clean is not modelled: the parts declare 7bit but carry UTF-8 text.
- Concurrency of log appends is not modelled: appends from simultaneous requests can interleave.
