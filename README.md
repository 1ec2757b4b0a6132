# HR email campaign: a Dafny model of `scripts/send_email.py`

The script reads HR contacts from a CSV file, writes one personalised
internship-application letter per contact, and sends each letter through
Gmail with a résumé attached. It pauses three seconds between two sends and
returns whether at least one send succeeded. This project models the three
parts of the script that decide what gets sent, and to whom. It proves what
each part promises.

- `strings.dfy` (module `Strings`): the two Python string operations the
  loader depends on. `str.strip()` removes exactly the characters for which
  `str.isspace()` holds. `str.lower()` is modelled on ASCII letters.
- `hr_contacts.dfy` (module `HrContacts`): `read_hr_contacts`. The rows are
  taken as `csv.DictReader` yields them:
  - a map from column name to cell;
  - a cell is `None` when the line is shorter than the header;
  - a longer line keeps its extra fields in a list.

  A row is classified in the order the code checks it: empty, then missing
  fields, then invalid email. An accepted row is stripped, and its email is
  lower-cased. The header check returns no contacts. A row whose required
  cell is `None` makes `.strip()` raise. The `except` clause then returns
  the contacts accepted so far, so the rest of the file is never read. The
  model keeps this behaviour: `RowOutcome.Raised`, `RaisingRowEndsRead`,
  `ShortRowRaises`. The read loop is an imperative method. It is proved
  equal to a specification function, `ContactsOf`, and the properties are
  proved of that function.
- `email_template.dfy` (module `EmailTemplate`): `generate_personalized_email`
  and the subject line of `main`. Both are f-strings. Each is modelled as a
  list of literal pieces and replacement fields, with the literal text
  copied exactly.
- `campaign.dfy` (module `Campaign`): `main` from the point where the
  contacts are read.
  - `send_email_via_gmail` is a parameter, `Transport`. It receives each
    call's arguments and the contact's 1-based position, and answers true
    or false.
  - `time.sleep(3)` is recorded as a `Pause` step.
  - The result is the boolean `main` returns, plus a `Summary` that records
    the two counters and the sequence of attempts and pauses.
  - The send loop is an imperative method, proved against the function
    `Steps`.

## Model

| member | source | states |
|---|---|---|
| Strings.Strip | scripts/send_email.py:48-56 | `s.strip()` is a slice of `s` with no white space at either end; everything cut off on either side is white space; the result is empty exactly when `s` is all white space |
| Strings.StripIdempotent | scripts/send_email.py:54-56 | stripping a stripped value changes nothing |
| Strings.Lower | scripts/send_email.py:55 | `lower()` keeps the length, leaves no capital, moves every capital up by 32 and keeps every other character |
| Strings.LowerKeepsPunctuation | scripts/send_email.py:55-60 | lower-casing neither adds nor removes a non-letter such as '@' or '.', so the email check sees the same punctuation before and after `lower()` |
| HrContacts.BlankFields | scripts/send_email.py:48 | a required field is reported missing exactly when its stripped value is empty |
| HrContacts.Normalize | scripts/send_email.py:53-57 | the contact built from a complete row holds the stripped name and company, both non-empty, and the stripped email with no capital letters |
| HrContacts.Classify | scripts/send_email.py:43-64 | the checks run in the order of the code: a row is skipped as empty exactly when no value is truthy; otherwise it raises exactly when a required cell is `None`; otherwise a row with blank required fields is skipped, naming exactly those fields; otherwise it is accepted exactly when its stripped, lower-cased email holds both '@' and '.', and the accepted contact is `Normalize(row)` (stripped, non-empty name and company, lower-case email) |
| HrContacts.Collect | scripts/send_email.py:42-71 | the contacts of a run of row outcomes are at most as many as the rows, and each one was accepted by some row |
| HrContacts.ContactsOf | scripts/send_email.py:42-71 | reading a file never yields more contacts than rows, and every contact it yields is normalised |
| HrContacts.ReadHrContacts | scripts/send_email.py:20-71 | the read loop returns exactly `LoadContacts`: nothing when the header lacks a required column; otherwise the accepted rows in order, up to the first row that raises; never more than the rows, each normalised |
| HrContacts.CollectAppend | scripts/send_email.py:42-71 | contacts accepted earlier are never taken back: the result for `a + b` is the result for `a` followed by the result for `b` when `a` has no raising row, and the result for `a` alone otherwise |
| HrContacts.ContactsOfAppend | scripts/send_email.py:42-71 | the same over rows of a file |
| HrContacts.SkippedRowIsDropped | scripts/send_email.py:43-62 | a skipped row (empty, missing fields, invalid email) leaves the result as if it were not in the file |
| HrContacts.RaisingRowEndsRead | scripts/send_email.py:48-71 | a row that raises ends the read: the result is what the rows before it gave, whatever follows |
| HrContacts.ContactComesFromRow | scripts/send_email.py:42-64 | every returned contact is `Normalize` of an accepted row (its stripped name and company and its stripped, lower-cased email) with no raising row before it |
| HrContacts.AcceptedRowIsReturned | scripts/send_email.py:53-64 | every accepted row before the first raising row yields a contact in the result |
| HrContacts.ShortRowRaises | scripts/send_email.py:48-57 | a line holding only a name (email and company `None`) makes the read raise |
| HrContacts.BobRowIsAccepted | scripts/send_email.py:53-64 | the row (" Bob ", "Bob@Acme.com", "Acme") gives the contact ("Bob", "bob@acme.com", "Acme") |
| EmailTemplate.FillAppend | scripts/send_email.py:79-103 | evaluating two f-strings one after the other is evaluating the joined f-string |
| EmailTemplate.FillLength | scripts/send_email.py:79-103 | every replacement field is replaced wherever it occurs: the result's length is the literal length plus one copy of the value per occurrence |
| EmailTemplate.FillIgnoresAbsentName | scripts/send_email.py:240 | a field that does not occur has no effect on the result |
| EmailTemplate.PersonalizedEmail | scripts/send_email.py:74-104 | the letter opens with "Dear <hr_name>," |
| EmailTemplate.BodyFieldCounts | scripts/send_email.py:79-103 | the template holds one `{hr_name}` field and three `{company}` fields |
| EmailTemplate.BodyLength | scripts/send_email.py:79-103 | the letter is as long as its fixed text plus one copy of the name and three copies of the company |
| EmailTemplate.Subject | scripts/send_email.py:240 | the subject is the fixed prefix "Frontend Internship Application – " followed by the company |
| EmailTemplate.CompanyOfSubject | scripts/send_email.py:240 | taking the prefix off a subject gives a company whose subject is that subject |
| EmailTemplate.SubjectRoundTrip | scripts/send_email.py:240 | the company can be read back from its subject, so different companies get different subjects |
| EmailTemplate.SubjectIgnoresName | scripts/send_email.py:240 | the subject does not depend on the contact's name |
| Campaign.SendAll | scripts/send_email.py:218-263 | the loop takes exactly the steps `Steps` describes; the success counter counts the delivered attempts and the failure counter the undelivered ones; together they equal the number of contacts |
| Campaign.SendCampaign | scripts/send_email.py:209-285 | with no contacts, nothing is sent and the result is false; otherwise every contact is tried once; the counters add up to the number of contacts; the result is true exactly when the transport accepted some contact's email, which is when the success counter is positive |
| Campaign.EveryRequestAttempted | scripts/send_email.py:223-258 | the `k`-th attempt is contact `k`'s request, with the transport's answer; there are exactly as many attempts as contacts, so a failed send never ends the loop |
| Campaign.EachContactGetsItsLetter | scripts/send_email.py:223-251 | there is one send call per contact, in file order: call `k` goes to contact `k`'s address with that contact's subject and letter, and the sender, password and résumé from the command line |
| Campaign.CountsCoverAttempts | scripts/send_email.py:253-258 | each attempt is counted once, as a success or as a failure |
| Campaign.PauseCount | scripts/send_email.py:260-263 | a campaign over `n` contacts pauses `n - 1` times |
| Campaign.StepsAlternate | scripts/send_email.py:260-263 | attempts and pauses alternate, starting with an attempt |
| Campaign.PausesOnlyBetweenSends | scripts/send_email.py:260-263 | no pause comes before the first send or after the last one; each pause sits between two sends |
| Campaign.DeliveredIffSomeone | scripts/send_email.py:277-285 | some attempt was delivered exactly when the transport accepted some contact's request |

## Left out

- SMTP, MIME and the attachment (`send_email_via_gmail`, lines 111-185): modelled only as the `Transport` answer. What the message looks like on the wire is not modelled.
- File system and CSV lexing (lines 28-33): the loader starts from the parsed header and rows. A missing file returns no contacts before any row is read. A file with no header line makes `fieldnames` `None`; the membership test then raises, and the `except` returns the empty list. Both end like a header without the required columns, which is how the model treats them.
- Argument parsing (lines 193-205): the four arguments are the `Settings` value and the table.
- Printed progress, warnings and the final summary text: not modelled, because they do not affect the result.
- `time.sleep(3)`: recorded as a `Pause(3)` step; no time passes.
- Strings.Lower: models `str.lower()` on ASCII capitals only; the Unicode case mapping of other letters is not modelled.
- The branch at lines 234-237: it is taken only when the letter is empty. `PersonalizedEmail` proves the letter always opens with "Dear …,", so the branch is unreachable and is not modelled.
- The `except` at lines 106-108: nothing inside the f-string can raise, so the `None` result is not modelled.
- The `except` at lines 265-268: in the model nothing inside the loop raises. An exception from printing or sleeping after a counter was bumped would count that contact twice; this is not modelled.
