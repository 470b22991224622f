/**
 The POST branch of the `/contact` handler: the three form fields are
 stripped, checked (required fields first, then the e-mail pattern), and an
 accepted submission is appended to the message log as one
 `name | email | message` record. Every outcome answers with a redirect back
 to the contact page and a flash message.
 */
module Contact {
  import opened Wrappers
  import opened PyText
  import opened EmailPattern

  /** A submission as it is stored: the three stripped fields. */
  datatype Submission = Submission(name: string, email: string, message: string)

  /** The result of validation, first failure first. */
  datatype Outcome = MissingFields | InvalidEmail | Accepted(submission: Submission)

  /** A flash message: its text and its category. */
  datatype Flash = Flash(text: string, category: string)

  /** The only response the POST branch gives. */
  datatype Response = Redirect(location: string)

  /** `url_for("contact")`. */
  const ContactPath: string := "/contact"

  /** `request.form.get(key, "")`: a missing field reads as the empty string. */
  function Field(form: map<string, string>, key: string): (v: string)
  {
    if key in form then form[key] else ""
  }

  /**
   The validation of the three raw fields. Each is stripped; if any is then
   empty the submission lacks fields; otherwise the stripped e-mail must match
   the pattern; otherwise the stripped fields are accepted.
   */
  function Validate(name: string, email: string, message: string): (o: Outcome)
    ensures o.MissingFields? <==> (Strip(name) == [] || Strip(email) == [] || Strip(message) == [])
    ensures o.InvalidEmail? <==>
      (Strip(name) != [] && Strip(email) != [] && Strip(message) != [] && !MatchesPattern(Strip(email)))
    ensures o.Accepted? ==> o.submission == Submission(Strip(name), Strip(email), Strip(message))
  {
    var n, e, m := Strip(name), Strip(email), Strip(message);
    StrippedMatchesIffValid(e);
    if n == [] || e == [] || m == [] then MissingFields
    else if !IsValidEmail(e) then InvalidEmail
    else Accepted(Submission(n, e, m))
  }

  /** The flash message each outcome leaves for the next page. */
  function FlashFor(o: Outcome): (f: Flash)
    ensures f.category == "success" <==> o.Accepted?
    ensures f.category == "danger" <==> !o.Accepted?
  {
    match o
    case MissingFields => Flash("All fields are required.", "danger")
    case InvalidEmail => Flash("Please enter a valid email address.", "danger")
    // The text begins with the three characters `app.py` holds there,
    // a doubly encoded check-mark emoji.
    case Accepted(_) =>
      Flash("\U{E2}\U{153}\U{2026} Thank you for your message! We'll get back to you soon.", "success")
  }

  /** The line written to the message log, `f"{name} | {email} | {message}\n"`. */
  function Record(s: Submission): (r: string)
  {
    s.name + " | " + s.email + " | " + s.message + "\n"
  }

  /**
   Reading a record back: the name runs to the first `|`, the e-mail to the
   next one, the message to the final line feed.
   */
  function ParseRecord(r: string): (p: Option<Submission>)
  {
    var i := FirstIndexOf(r, '|');
    if !(1 <= i && i + 1 < |r| && r[i - 1] == ' ' && r[i + 1] == ' ') then None
    else
      match ParseTail(r[i + 2..])
      case None => None
      case Some((email, message)) => Some(Submission(r[..i - 1], email, message))
  }

  /** The part of a record after the name: the e-mail and the message. */
  function ParseTail(rest: string): (p: Option<(string, string)>)
  {
    var j := FirstIndexOf(rest, '|');
    if !(1 <= j && j + 2 < |rest| && rest[j - 1] == ' ' && rest[j + 1] == ' ' && rest[|rest| - 1] == '\n') then None
    else Some((rest[..j - 1], rest[j + 2..|rest| - 1]))
  }

  /** The first `c` of `a + [c] + b` is the one after `a` when `a` holds none. */
  lemma {:induction false} FirstIndexOfAfter(a: string, c: char, b: string)
    requires c !in a
    ensures FirstIndexOf(a + [c] + b, c) == |a|
  {
    if a != [] {
      assert (a + [c] + b)[1..] == a[1..] + [c] + b;
      FirstIndexOfAfter(a[1..], c, b);
    }
  }

  /** The part of a record after the name reads back as its e-mail and message. */
  lemma TailRoundTrip(e: string, m: string)
    requires '|' !in e
    ensures ParseTail(e + " | " + m + "\n") == Some((e, m))
  {
    var rest := e + " | " + m + "\n";
    assert rest == (e + " ") + ['|'] + (" " + m + "\n");
    FirstIndexOfAfter(e + " ", '|', " " + m + "\n");
    assert rest[..|e|] == e;
    assert rest[|e| + 3..|rest| - 1] == m;
  }

  /** Regroups a record as the name and a space, the first `|`, and a space with the rest. */
  lemma RecordSplit(n: string, e: string, m: string)
    ensures Record(Submission(n, e, m)) == (n + " ") + ['|'] + (" " + (e + " | " + m + "\n"))
  {
  }

  /**
   A record gives back its submission whenever the name and the e-mail hold
   no `|`; the message may hold anything.
   */
  lemma RecordRoundTrip(s: Submission)
    requires '|' !in s.name && '|' !in s.email
    ensures ParseRecord(Record(s)) == Some(s)
  {
    var n, e, m := s.name, s.email, s.message;
    var r, tail := Record(s), e + " | " + m + "\n";
    RecordSplit(n, e, m);
    FirstIndexOfAfter(n + " ", '|', " " + tail);
    assert r[..|n|] == n;
    assert r[|n| + 3..] == tail;
    TailRoundTrip(e, m);
  }

  /**
   The required-fields check fails exactly when some raw field is nothing
   but whitespace (in particular when it is empty or missing).
   */
  lemma MissingFieldsIff(name: string, email: string, message: string)
    ensures Validate(name, email, message).MissingFields? <==>
      (AllWhitespace(name) || AllWhitespace(email) || AllWhitespace(message))
  {
    StripEmptyIff(name);
    StripEmptyIff(email);
    StripEmptyIff(message);
  }

  /**
   First failure wins: when a field strips to nothing the e-mail is not
   looked at, so any e-mail, well formed or not, gives the same outcome.
   */
  lemma MissingFieldsIgnoresEmail(name: string, email1: string, email2: string, message: string)
    requires Strip(name) == [] || Strip(message) == []
    ensures Validate(name, email1, message) == Validate(name, email2, message) == MissingFields
  {
  }

  /** An empty message with a malformed e-mail is reported as a missing field. */
  lemma EmptyMessageBeforeBadEmail()
    ensures Validate("Jane", "not-an-email", "") == MissingFields
  {
    assert Strip("") == [];
  }

  /** Validation sees only the stripped fields: stripping them first changes nothing. */
  lemma ValidateOnStripped(name: string, email: string, message: string)
    ensures Validate(Strip(name), Strip(email), Strip(message)) == Validate(name, email, message)
  {
    StripIdempotent(name);
    StripIdempotent(email);
    StripIdempotent(message);
  }

  /** Whitespace around any field changes neither the outcome nor what is stored. */
  lemma ValidateIgnoresPadding(name: string, email: string, message: string,
                               n1: string, n2: string, e1: string, e2: string, m1: string, m2: string)
    requires AllWhitespace(n1) && AllWhitespace(n2)
    requires AllWhitespace(e1) && AllWhitespace(e2)
    requires AllWhitespace(m1) && AllWhitespace(m2)
    ensures Validate(n1 + name + n2, e1 + email + e2, m1 + message + m2) == Validate(name, email, message)
  {
    StripIgnoresPadding(n1, name, n2);
    StripIgnoresPadding(e1, email, e2);
    StripIgnoresPadding(m1, message, m2);
  }

  /**
   What an accepted submission looks like: three non-empty stripped fields,
   an e-mail that the pattern matches, with one `@`, no whitespace and no `|`.
   */
  lemma AcceptedSubmissionShape(name: string, email: string, message: string)
    requires Validate(name, email, message).Accepted?
    ensures var s := Validate(name, email, message).submission;
      && s.name != [] && s.email != [] && s.message != []
      && IsStripped(s.name) && IsStripped(s.email) && IsStripped(s.message)
      && MatchesPattern(s.email) && multiset(s.email)['@'] == 1
      && '|' !in s.email
      && (forall i :: 0 <= i < |s.email| ==> !IsWhitespace(s.email[i]))
  {
    var e := Strip(email);
    StrippedMatchesIffValid(e);
    ValidEmailShape(e);
  }

  /** An accepted record can be read back whenever the name holds no `|`. */
  lemma AcceptedRecordRoundTrip(name: string, email: string, message: string)
    requires Validate(name, email, message).Accepted?
    requires '|' !in Strip(name)
    ensures ParseRecord(Record(Validate(name, email, message).submission))
         == Some(Submission(Strip(name), Strip(email), Strip(message)))
  {
    AcceptedSubmissionShape(name, email, message);
    RecordRoundTrip(Validate(name, email, message).submission);
  }

  /**
   Without that condition the log cannot be read back: `|` is not escaped,
   so a name holding ` | ` and an e-mail, and a message holding ` | ` and an
   e-mail, give two different accepted submissions with the same record.
   */
  lemma UnescapedDelimiterIsAmbiguous(a: string, b: string, e: string, m: string)
    requires a != [] && IsStripped(a) && m != [] && IsStripped(m)
    requires IsValidEmail(b) && IsValidEmail(e)
    ensures Validate(a + " | " + b, e, m) == Accepted(Submission(a + " | " + b, e, m))
    ensures Validate(a, b, e + " | " + m) == Accepted(Submission(a, b, e + " | " + m))
    ensures Submission(a + " | " + b, e, m) != Submission(a, b, e + " | " + m)
    ensures Record(Submission(a + " | " + b, e, m)) == Record(Submission(a, b, e + " | " + m))
  {
    var name1, message2 := a + " | " + b, e + " | " + m;
    ValidEmailShape(b);
    ValidEmailShape(e);
    JoinedStripped(a, b);
    JoinedStripped(e, m);
    AcceptsStripped(name1, e, m);
    AcceptsStripped(a, b, message2);
    assert |name1| != |a|;
    SameRecord(a, b, e, m);
  }

  /** Two non-empty stripped strings joined by ` | ` are stripped. */
  lemma JoinedStripped(x: string, y: string)
    requires x != [] && IsStripped(x) && y != [] && IsStripped(y)
    ensures IsStripped(x + " | " + y)
  {
    var j := x + " | " + y;
    assert j[0] == x[0];
    assert j[|j| - 1] == y[|y| - 1];
  }

  /** Moving ` | ` and an e-mail from the end of the name to the start of the message leaves the record unchanged. */
  lemma SameRecord(a: string, b: string, e: string, m: string)
    ensures Record(Submission(a + " | " + b, e, m)) == Record(Submission(a, b, e + " | " + m))
  {
  }

  /** Fields that are already stripped, non-empty, with a valid e-mail, are accepted as they are. */
  lemma AcceptsStripped(n: string, e: string, m: string)
    requires n != [] && IsStripped(n) && m != [] && IsStripped(m) && IsValidEmail(e)
    ensures Validate(n, e, m) == Accepted(Submission(n, e, m))
  {
    ValidEmailShape(e);
    StripFixesStripped(n);
    StripFixesStripped(e);
    StripFixesStripped(m);
    StrippedMatchesIffValid(e);
  }

  /** A typical submission (`Jane`, `jane@example.com`, `Hello`) is accepted and stored as one line. */
  lemma JaneExample()
    ensures Validate("Jane", "jane@example.com", "Hello")
         == Accepted(Submission("Jane", "jane@example.com", "Hello"))
    ensures Record(Submission("Jane", "jane@example.com", "Hello")) == "Jane | jane@example.com | Hello\n"
  {
    ExampleAccepted();
    JaneFieldsStripped();
    AcceptsStripped("Jane", "jane@example.com", "Hello");
    JaneRecord();
  }

  /** The name and the message of that submission have no whitespace at their ends. */
  lemma JaneFieldsStripped()
    ensures IsStripped("Jane") && IsStripped("Hello")
  {
    assert !IsWhitespace('J') && !IsWhitespace('e') && !IsWhitespace('H') && !IsWhitespace('o');
  }

  /** The record of that submission, written out as one string literal. */
  lemma JaneRecord()
    ensures Record(Submission("Jane", "jane@example.com", "Hello")) == "Jane | jane@example.com | Hello\n"
  {
    assert "Jane" + " | " == "Jane | ";
    assert "Jane | " + "jane@example.com" == "Jane | jane@example.com";
    assert "Jane | jane@example.com" + " | " == "Jane | jane@example.com | ";
    assert "Jane | jane@example.com | " + "Hello" == "Jane | jane@example.com | Hello";
    assert "Jane | jane@example.com | Hello" + "\n" == "Jane | jane@example.com | Hello\n";
  }

  /** The text of a file holding `rs` written one after another. */
  function Concat(rs: seq<string>): (text: string)
  {
    if rs == [] then [] else Concat(rs[..|rs| - 1]) + rs[|rs| - 1]
  }

  /** The append-only message file. */
  class MessageLog {
    /** Every record written, oldest first. */
    var records: seq<string>

    constructor (existing: seq<string>)
      ensures records == existing
    {
      records := existing;
    }

    /** The text of the file. */
    function Text(): (text: string)
      reads this
    {
      Concat(records)
    }

    /** Opening the file in append mode and writing one record. */
    method Append(record: string)
      modifies this
      ensures records == old(records) + [record]
      ensures Text() == old(Text()) + record
    {
      records := records + [record];
      assert records[..|records| - 1] == old(records);
    }
  }

  /**
   The POST branch of `contact()`: validate the form, append the record if it
   is accepted, flash the outcome, and redirect to the contact page.
   */
  method HandleContactPost(log: MessageLog, form: map<string, string>)
    returns (outcome: Outcome, flash: Flash, response: Response)
    modifies log
    ensures outcome == Validate(Field(form, "name"), Field(form, "email"), Field(form, "message"))
    ensures flash == FlashFor(outcome)
    ensures response == Redirect(ContactPath)
    ensures outcome.Accepted? ==> log.records == old(log.records) + [Record(outcome.submission)]
    ensures outcome.Accepted? ==> log.Text() == old(log.Text()) + Record(outcome.submission)
    ensures !outcome.Accepted? ==> log.records == old(log.records)
  {
    var name := Strip(Field(form, "name"));
    var email := Strip(Field(form, "email"));
    var message := Strip(Field(form, "message"));
    StrippedMatchesIffValid(email);

    if name == [] || email == [] || message == [] {
      outcome := MissingFields;
    } else if !IsValidEmail(email) {
      outcome := InvalidEmail;
    } else {
      var submission := Submission(name, email, message);
      log.Append(Record(submission));
      outcome := Accepted(submission);
    }
    flash := FlashFor(outcome);
    response := Redirect(ContactPath);
  }
}
