# Edinburgh Explorer contact form, modelled in Dafny

Edinburgh Explorer is a small Flask site about Edinburgh. Its only logic is
the POST branch of the `/contact` handler. That branch reads three form
fields (name, e-mail, message) and strips each one with `str.strip()`. It
rejects the submission if any stripped field is empty. Otherwise it rejects
it if the e-mail does not match `^[\w\.-]+@[\w\.-]+\.\w+$`. Otherwise it
appends one record `name | email | message\n` to the file `messages.txt`.
Every outcome flashes a message and redirects to the contact page.

The project has four modules:

- `Wrappers` (`wrappers.dfy`) defines `Option`.
- `PyText` (`pytext.dfy`) covers Python's whitespace, the `\w` class and
  `str.strip()`.
  - `Strip` returns the slice between two scans. A forward scan skips
    leading whitespace. A backward scan skips trailing whitespace, but stops
    where the forward scan stopped.
  - `Strip` is proved against a reference definition (`StripUnique`). The
    result is whatever is left between leading and trailing whitespace.
  - From that come idempotence, invariance under padding, and "strips to
    empty iff all whitespace".
- `EmailPattern` (`email.dfy`) covers the e-mail pattern.
  - `FullMatch` and `MatchesPattern` state what the regular expression
    accepts, including what `re.match` does with `^` and `$`.
  - `IsValidEmail` is a character-level test. It is proved to accept exactly
    the same stripped strings.
  - An accepted address has one `@`, no whitespace and no `|`.
- `Contact` (`contact.dfy`) covers the handler.
  - `Validate` gives the outcome, first failure first. `FlashFor` gives the
    flash message. `Record` gives the log line.
  - The class `MessageLog` is the append-only file.
  - `HandleContactPost` is the POST branch. On acceptance the log gains
    exactly one record. Otherwise it is unchanged. Every path returns a
    redirect to `/contact`.
  - `ParseRecord` reads a record back. This reader belongs to the model
    only: `app.py` never reads the log. It returns the submission for every
    record the handler writes, whenever the name holds no `|`. `UnescapedDelimiterIsAmbiguous` shows why that
    condition is needed: two different accepted submissions can write the
    same record.

Choices made in the model:

- A missing form field reads as `""` (`Contact.Field`). This is what
  `request.form.get(key, "")` returns.
- Whitespace is the exact set of characters for which Python's
  `str.isspace()` holds. These are the characters `str.strip()` removes.
- `\w` covers ASCII letters, digits and `_`, plus the non-ASCII alphanumeric
  characters of Unicode.
  - The model does not spell out the Unicode table. The constant
    `PyText.NonAsciiAlnum` stands for it. Dafny gives it no particular value,
    so every proof holds whichever characters it holds.
  - The definition adds two guards: such a character must be at least U+0080
    and must not be whitespace. Both are true of Unicode's alphanumerics.
- The success flash text is modelled character for character as written in
  `app.py`. It begins with the three characters `â`, `œ` and `…`, which are
  a check-mark emoji encoded twice.
- The message log is the sequence of records written, oldest first.
  `MessageLog.Text()` is the text passed to `f.write`, the records joined
  together. It is the file's text where `os.linesep` is `\n`.
- Only the ends of a field are stripped, so a message can hold line feeds
  and `|`, and a record may span several lines. Nothing here claims that a
  record is one line.

## Model

| member | source | states |
|---|---|---|
| `PyText.SkipLeading` | EdinburghExplorer/EdinburghExplorer/app.py:63-65 | the forward scan of `str.strip()`: every character it passes over is whitespace, and it stops at the end or at a character that is not whitespace |
| `PyText.SkipTrailing` | EdinburghExplorer/EdinburghExplorer/app.py:63-65 | the backward scan of `str.strip()`, which never goes below the forward scan's position: every character it passes over is whitespace, and it stops at that position or just after a character that is not whitespace |
| `PyText.Strip` | EdinburghExplorer/EdinburghExplorer/app.py:63-65 | the stripped field has no whitespace at either end and is no longer than the raw field |
| `PyText.StripDecomposes` | EdinburghExplorer/EdinburghExplorer/app.py:63-65 | the stripped field is a contiguous slice of the raw field, with only whitespace before and after it |
| `PyText.StripUnique` | EdinburghExplorer/EdinburghExplorer/app.py:63-65 | reference definition: for any split into whitespace, a part with no whitespace at its ends, and whitespace, stripping returns the middle part |
| `PyText.StripFixesStripped` | EdinburghExplorer/EdinburghExplorer/app.py:63-65 | a string with no whitespace at its ends is left unchanged |
| `PyText.StripIdempotent` | EdinburghExplorer/EdinburghExplorer/app.py:63-65 | stripping twice is the same as stripping once |
| `PyText.StripIgnoresPadding` | EdinburghExplorer/EdinburghExplorer/app.py:63-65 | adding whitespace before and after a field does not change the stripped value |
| `PyText.StripEmptyIff` | EdinburghExplorer/EdinburghExplorer/app.py:63-68 | a field strips to empty exactly when it consists only of whitespace |
| `EmailPattern.FirstIndexOf` | EdinburghExplorer/EdinburghExplorer/app.py:73-74 | gives the position of the first occurrence of a character, or the length when there is none: that position holds the character and no earlier one does |
| `EmailPattern.LastNonWordIndex` | EdinburghExplorer/EdinburghExplorer/app.py:73-74 | gives the position of the last character outside `\w`, or -1: every later character is a word character |
| `EmailPattern.IsValidEmailIffFullMatch` | EdinburghExplorer/EdinburghExplorer/app.py:73-74 | the character-level test holds exactly when the string is a non-empty `[\w.-]` run, `@`, a non-empty `[\w.-]` run, `.`, and a non-empty `\w` run up to the end (both directions) |
| `EmailPattern.StrippedMatchesIffValid` | EdinburghExplorer/EdinburghExplorer/app.py:73-74 | on a stripped string, what `re.match` accepts for the anchored pattern (where `$` also allows one final line feed) is exactly the character-level test |
| `EmailPattern.ValidEmailShape` | EdinburghExplorer/EdinburghExplorer/app.py:73 | an accepted address contains exactly one `@`, has no whitespace and no `\|` anywhere, and so is already stripped |
| `EmailPattern.ExampleAccepted` | EdinburghExplorer/EdinburghExplorer/app.py:73-74 | `jane@example.com` is accepted |
| `EmailPattern.ExampleRejected` | EdinburghExplorer/EdinburghExplorer/app.py:73-74 | `not-an-email` is rejected |
| `Contact.Validate` | EdinburghExplorer/EdinburghExplorer/app.py:63-76 | the outcome is "missing fields" iff some stripped field is empty; it is "invalid e-mail" iff all stripped fields are non-empty and the pattern does not match the stripped e-mail; an accepted submission holds the three stripped fields |
| `Contact.FlashFor` | EdinburghExplorer/EdinburghExplorer/app.py:69-82 | the flash category is `success` exactly for an accepted submission and `danger` exactly for the two rejections |
| `Contact.MissingFieldsIff` | EdinburghExplorer/EdinburghExplorer/app.py:63-70 | the submission is refused for missing fields exactly when some raw field is empty or all whitespace |
| `Contact.MissingFieldsIgnoresEmail` | EdinburghExplorer/EdinburghExplorer/app.py:68-76 | first failure wins: when the name or the message strips to empty, the outcome is "missing fields" whatever the e-mail is |
| `Contact.EmptyMessageBeforeBadEmail` | EdinburghExplorer/EdinburghExplorer/app.py:68-76 | an empty message with the malformed e-mail `not-an-email` gives "missing fields", not "invalid e-mail" |
| `Contact.ValidateOnStripped` | EdinburghExplorer/EdinburghExplorer/app.py:63-65 | validation sees only the stripped fields: validating the already stripped fields gives the same outcome |
| `Contact.ValidateIgnoresPadding` | EdinburghExplorer/EdinburghExplorer/app.py:63-65 | whitespace added around any of the three fields changes neither the outcome nor the stored values |
| `Contact.AcceptedSubmissionShape` | EdinburghExplorer/EdinburghExplorer/app.py:63-80 | an accepted submission has three non-empty stripped fields; its e-mail matches the pattern, has one `@`, and holds no whitespace and no `\|` |
| `Contact.AcceptsStripped` | EdinburghExplorer/EdinburghExplorer/app.py:63-80 | non-empty stripped fields with a valid e-mail are accepted exactly as given |
| `Contact.TailRoundTrip` | EdinburghExplorer/EdinburghExplorer/app.py:80 | the part of a record after the name reads back as its e-mail and message when the e-mail holds no `\|` |
| `Contact.RecordRoundTrip` | EdinburghExplorer/EdinburghExplorer/app.py:80 | a record reads back as its submission when neither the name nor the e-mail holds `\|`; the message may hold anything, line feeds included |
| `Contact.AcceptedRecordRoundTrip` | EdinburghExplorer/EdinburghExplorer/app.py:79-80 | the record of an accepted submission reads back as its three stripped fields whenever the stripped name holds no `\|` |
| `Contact.UnescapedDelimiterIsAmbiguous` | EdinburghExplorer/EdinburghExplorer/app.py:80 | the delimiter is not escaped: two different accepted submissions (a name holding ` \| ` and an address, and a message holding ` \| ` and an address) write the same record |
| `Contact.JaneExample` | EdinburghExplorer/EdinburghExplorer/app.py:63-80 | name `Jane`, e-mail `jane@example.com` and message `Hello` are accepted and stored as the line `Jane \| jane@example.com \| Hello\n` |
| `Contact.MessageLog.constructor` | EdinburghExplorer/EdinburghExplorer/app.py:19 | the log starts out holding whatever the message file already contains |
| `Contact.MessageLog.Append` | EdinburghExplorer/EdinburghExplorer/app.py:79-80 | appending adds exactly the one record at the end; the text written so far becomes the old text followed by the record |
| `Contact.HandleContactPost` | EdinburghExplorer/EdinburghExplorer/app.py:60-83 | the outcome is `Validate` of the three form fields (missing ones read as empty); the flash message matches the outcome; the response is always a redirect to `/contact`; on acceptance exactly one record is appended, so the old log is a prefix of the new one; otherwise the log is unchanged |

## Left out

- The page routes, `render_template` and `get_current_year()` (app.py:14-15, 30-57, 85-95) are left out. They are presentation and a clock read, with nothing to prove.
- The GET branch of `contact()` (app.py:85) is left out. It only renders the form.
- The `attractions()` route (app.py:40-52) is left out. It loads a JSON file, or resets the file when it does not parse. JSON parsing is a library call that is not part of this model.
- Startup seeding of the data directory and the attractions file (app.py:17-28) is left out. It is file-system I/O.
- Flask's `flash`, the session and the secret-key fallback (app.py:11) are left out. A flash message is modelled only as its text and category (`Contact.FlashFor`).
- `url_for` is left out. It is replaced by its value `/contact` for this route.
- Concurrency and atomicity of the append to `messages.txt` are left out. The source takes no lock, and the log is modelled as one request at a time.
- File-system failures (a failing open or write) are left out. They propagate as server errors in the source.
- Text-mode newline translation is left out. The log is opened in text mode without a `newline=` argument (app.py:79), so each `\n` written reaches the file as `os.linesep`. `MessageLog.Text()` is the text passed to `f.write`, which is the file's text where `os.linesep` is `\n`.
- The UTF-8 encoding of the log file is left out. Records are modelled as sequences of characters, not bytes.
- `PyText.IsWordChar`: the non-ASCII part of `\w` is left abstract as `PyText.NonAsciiAlnum`. The Unicode alphanumeric table is not spelled out.
- There is no unconditional round trip from a record back to its three fields. `|` is not escaped in the name or the message, and `Contact.UnescapedDelimiterIsAmbiguous` proves that such a round trip is false.
