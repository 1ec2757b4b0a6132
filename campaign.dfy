/** The send loop of `main`: load the contacts, then for each one in order
    render its email, hand it to the transport, count the outcome, and pause
    before the next contact. */
module Campaign {
  import opened HrContacts
  import opened EmailTemplate

  /** The seconds of `time.sleep(3)` between two sends. */
  const DelaySeconds: nat := 3

  /** The command-line settings `main` passes to every send. */
  datatype Settings = Settings(senderEmail: string, gmailPassword: string, resumePath: string)

  /** The arguments of one `send_email_via_gmail` call. */
  datatype SendRequest = SendRequest(
    senderEmail: string,
    senderPassword: string,
    recipientEmail: string,
    subject: string,
    body: string,
    attachmentPath: string)

  /** What the campaign does, in order: a send attempt and whether it
      succeeded, or a pause. */
  datatype Step = Attempt(request: SendRequest, delivered: bool) | Pause(seconds: nat)

  /** The counters at the end of the loop and the steps it took. */
  datatype Summary = Summary(successfulSends: nat, failedSends: nat, steps: seq<Step>)

  /** `send_email_via_gmail` as `main` sees it: a call that answers true or
      false. It also receives the contact's 1-based position, so the same
      request may succeed at one position and fail at another. */
  type Transport = (nat, SendRequest) -> bool

  /** The call `main` makes for `contact`. */
  function RequestFor(settings: Settings, contact: Contact): SendRequest {
    SendRequest(
      settings.senderEmail, settings.gmailPassword, contact.email,
      Subject(contact.company), PersonalizedEmail(contact.name, contact.company),
      settings.resumePath)
  }

  /** The calls `main` makes, one per contact, in order. */
  function Requests(settings: Settings, contacts: seq<Contact>): (requests: seq<SendRequest>)
    ensures |requests| == |contacts|
    ensures forall k :: 0 <= k < |contacts| ==> requests[k] == RequestFor(settings, contacts[k])
  {
    seq(|contacts|, k requires 0 <= k < |contacts| => RequestFor(settings, contacts[k]))
  }

  /** The steps of the campaign over its first `n` requests: request `n` is
      attempted, and a pause follows unless it is the last one. */
  function Steps(requests: seq<SendRequest>, transport: Transport, n: nat): seq<Step>
    requires n <= |requests|
  {
    if n == 0 then []
    else
      Steps(requests, transport, n - 1)
        + [Attempt(requests[n - 1], transport(n, requests[n - 1]))]
        + (if n < |requests| then [Pause(DelaySeconds)] else [])
  }

  function Last(steps: seq<Step>): Step
    requires steps != []
  {
    steps[|steps| - 1]
  }

  /** The number of attempts that succeeded. */
  function Delivered(steps: seq<Step>): nat {
    if steps == [] then 0
    else Delivered(steps[..|steps| - 1]) + (if Last(steps).Attempt? && Last(steps).delivered then 1 else 0)
  }

  /** The number of attempts that failed. */
  function Undelivered(steps: seq<Step>): nat {
    if steps == [] then 0
    else Undelivered(steps[..|steps| - 1]) + (if Last(steps).Attempt? && !Last(steps).delivered then 1 else 0)
  }

  /** The number of pauses. */
  function Pauses(steps: seq<Step>): nat {
    if steps == [] then 0
    else Pauses(steps[..|steps| - 1]) + (if Last(steps).Pause? then 1 else 0)
  }

  /** The attempts, in order. */
  function Attempts(steps: seq<Step>): seq<Step> {
    if steps == [] then []
    else Attempts(steps[..|steps| - 1]) + (if Last(steps).Attempt? then [Last(steps)] else [])
  }

  /** The transport accepted request `i` (1-based). */
  predicate DeliveredTo(requests: seq<SendRequest>, transport: Transport, i: nat) {
    1 <= i <= |requests| && transport(i, requests[i - 1])
  }

  /** `main`: read the contacts; with none, report failure before any send.
      Otherwise try each contact once, in order, counting each outcome in
      exactly one counter, and pause between two sends. The result is true
      exactly when some send succeeded. */
  method SendCampaign(table: CsvTable, settings: Settings, transport: Transport) returns (ok: bool, summary: Summary)
    ensures var requests := Requests(settings, LoadContacts(table));
      && summary.steps == Steps(requests, transport, |requests|)
      && summary.successfulSends + summary.failedSends == |requests|
      && (ok <==> exists i :: DeliveredTo(requests, transport, i))
      && (requests == [] ==> !ok && summary.steps == [])
    ensures summary.successfulSends == Delivered(summary.steps)
    ensures summary.failedSends == Undelivered(summary.steps)
    ensures ok <==> summary.successfulSends > 0
  {
    hide PersonalizedEmail;
    var contacts := ReadHrContacts(table);
    if contacts == [] {
      return false, Summary(0, 0, []);
    }
    summary := SendAll(contacts, settings, transport);
    ok := summary.successfulSends > 0;
    DeliveredIffSomeone(Requests(settings, contacts), transport, |contacts|);
  }

  /** The send loop of `main`: contact `i` (1-based) gets its own subject
      and letter, the transport's answer goes to exactly one counter, and a
      pause follows unless `i` is the last. */
  method SendAll(contacts: seq<Contact>, settings: Settings, transport: Transport) returns (summary: Summary)
    ensures var requests := Requests(settings, contacts);
      && summary.steps == Steps(requests, transport, |requests|)
      && summary.successfulSends == Delivered(summary.steps)
      && summary.failedSends == Undelivered(summary.steps)
      && summary.successfulSends + summary.failedSends == |contacts|
  {
    // The loop never looks inside the letter; keeping its text out of the
    // proof keeps the proof small.
    hide PersonalizedEmail;
    ghost var requests := Requests(settings, contacts);
    var successfulSends, failedSends := 0, 0;
    var steps: seq<Step> := [];
    var i := 1;
    while i <= |contacts|
      invariant 1 <= i <= |contacts| + 1 && |requests| == |contacts|
      invariant steps == Steps(requests, transport, i - 1)
      invariant successfulSends == Delivered(steps) && failedSends == Undelivered(steps)
    {
      var contact := contacts[i - 1];
      var body := PersonalizedEmail(contact.name, contact.company);
      var subject := Subject(contact.company);
      var request := SendRequest(settings.senderEmail, settings.gmailPassword, contact.email, subject, body, settings.resumePath);
      assert request == requests[i - 1];
      var success := transport(i, request);
      if success {
        successfulSends := successfulSends + 1;
      } else {
        failedSends := failedSends + 1;
      }
      SendStep(requests, transport, i, steps);
      steps := steps + [Attempt(request, success)];
      if i < |contacts| {
        steps := steps + [Pause(DelaySeconds)];
      }
      i := i + 1;
    }
    summary := Summary(successfulSends, failedSends, steps);
    CountsCoverAttempts(requests, transport, |requests|);
  }

  /** One turn of the send loop extends the steps of the first `i - 1`
      requests to those of the first `i`, and counts the attempt. */
  lemma SendStep(requests: seq<SendRequest>, transport: Transport, i: nat, steps: seq<Step>)
    requires 1 <= i <= |requests| && steps == Steps(requests, transport, i - 1)
    ensures var a := Attempt(requests[i - 1], transport(i, requests[i - 1]));
      var next := steps + [a] + (if i < |requests| then [Pause(DelaySeconds)] else []);
      && next == Steps(requests, transport, i)
      && Delivered(next) == Delivered(steps) + (if a.delivered then 1 else 0)
      && Undelivered(next) == Undelivered(steps) + (if a.delivered then 0 else 1)
  {
    GrowCounts(steps, Attempt(requests[i - 1], transport(i, requests[i - 1])), i < |requests|);
  }

  /** Appending one step adds it to exactly the count it belongs to. */
  lemma AppendStep(steps: seq<Step>, s: Step)
    ensures Delivered(steps + [s]) == Delivered(steps) + (if s.Attempt? && s.delivered then 1 else 0)
    ensures Undelivered(steps + [s]) == Undelivered(steps) + (if s.Attempt? && !s.delivered then 1 else 0)
    ensures Pauses(steps + [s]) == Pauses(steps) + (if s.Pause? then 1 else 0)
    ensures Attempts(steps + [s]) == Attempts(steps) + (if s.Attempt? then [s] else [])
  {
    assert (steps + [s])[..|steps|] == steps;
  }

  /** One more request: its attempt is counted, and the pause after it, if
      any, only in the pauses. */
  lemma GrowCounts(prev: seq<Step>, a: Step, pause: bool)
    requires a.Attempt?
    ensures var steps := prev + [a] + (if pause then [Pause(DelaySeconds)] else []);
      && Delivered(steps) == Delivered(prev) + (if a.delivered then 1 else 0)
      && Undelivered(steps) == Undelivered(prev) + (if a.delivered then 0 else 1)
      && Pauses(steps) == Pauses(prev) + (if pause then 1 else 0)
      && Attempts(steps) == Attempts(prev) + [a]
  {
    AppendStep(prev, a);
    if pause {
      AppendStep(prev + [a], Pause(DelaySeconds));
    } else {
      assert prev + [a] + [] == prev + [a];
    }
  }

  /** Every request is attempted once, in order, whatever the transport
      answers: a failed send never ends the loop. */
  lemma {:induction false} EveryRequestAttempted(requests: seq<SendRequest>, transport: Transport, n: nat)
    requires n <= |requests|
    ensures var attempts := Attempts(Steps(requests, transport, n));
      && |attempts| == n
      && forall k :: 0 <= k < n ==> attempts[k] == Attempt(requests[k], transport(k + 1, requests[k]))
  {
    if n > 0 {
      EveryRequestAttempted(requests, transport, n - 1);
      var before := Attempts(Steps(requests, transport, n - 1));
      GrowCounts(Steps(requests, transport, n - 1), Attempt(requests[n - 1], transport(n, requests[n - 1])), n < |requests|);
      var attempts := Attempts(Steps(requests, transport, n));
      forall k | 0 <= k < n ensures attempts[k] == Attempt(requests[k], transport(k + 1, requests[k])) {
        if k < n - 1 {
          assert attempts[k] == before[k];
        }
      }
    }
  }

  /** The campaign writes to every contact once, in file order: attempt `k`
      goes to contact `k`'s address, with the subject and letter for that
      contact and the sender, password and résumé from the command line. */
  lemma EachContactGetsItsLetter(settings: Settings, contacts: seq<Contact>, transport: Transport)
    ensures var attempts := Attempts(Steps(Requests(settings, contacts), transport, |contacts|));
      && |attempts| == |contacts|
      && forall k :: 0 <= k < |contacts| ==>
           && attempts[k].Attempt?
           && attempts[k].request.recipientEmail == contacts[k].email
           && attempts[k].request.subject == Subject(contacts[k].company)
           && attempts[k].request.body == PersonalizedEmail(contacts[k].name, contacts[k].company)
           && attempts[k].request.senderEmail == settings.senderEmail
           && attempts[k].request.senderPassword == settings.gmailPassword
           && attempts[k].request.attachmentPath == settings.resumePath
  {
    hide PersonalizedEmail;
    var requests := Requests(settings, contacts);
    EveryRequestAttempted(requests, transport, |contacts|);
  }

  /** Each attempt is counted once, as a success or as a failure. */
  lemma {:induction false} CountsCoverAttempts(requests: seq<SendRequest>, transport: Transport, n: nat)
    requires n <= |requests|
    ensures var steps := Steps(requests, transport, n);
      Delivered(steps) + Undelivered(steps) == n
  {
    if n > 0 {
      CountsCoverAttempts(requests, transport, n - 1);
      GrowCounts(Steps(requests, transport, n - 1), Attempt(requests[n - 1], transport(n, requests[n - 1])), n < |requests|);
    }
  }

  /** A pause follows every request but the last: `n` contacts bring
      `n - 1` pauses. */
  lemma {:induction false} PauseCount(requests: seq<SendRequest>, transport: Transport, n: nat)
    requires n <= |requests|
    ensures Pauses(Steps(requests, transport, n)) == if 0 < n == |requests| then n - 1 else n
  {
    if n > 0 {
      PauseCount(requests, transport, n - 1);
      GrowCounts(Steps(requests, transport, n - 1), Attempt(requests[n - 1], transport(n, requests[n - 1])), n < |requests|);
    }
  }

  /** The steps alternate, attempt first: attempts at even positions and
      pauses at odd ones. */
  lemma {:induction false} StepsAlternate(requests: seq<SendRequest>, transport: Transport, n: nat)
    requires n <= |requests|
    ensures var steps := Steps(requests, transport, n);
      && |steps| == (if 0 < n == |requests| then 2 * n - 1 else 2 * n)
      && forall j :: 0 <= j < |steps| ==> (steps[j].Pause? <==> j % 2 == 1)
  {
    if n > 0 {
      StepsAlternate(requests, transport, n - 1);
      var prev, steps := Steps(requests, transport, n - 1), Steps(requests, transport, n);
      var a := Attempt(requests[n - 1], transport(n, requests[n - 1]));
      var tail := if n < |requests| then [Pause(DelaySeconds)] else [];
      assert steps == prev + [a] + tail;
      assert |prev| == 2 * (n - 1);
      forall j | 0 <= j < |steps| ensures steps[j].Pause? <==> j % 2 == 1 {
        if j < |prev| {
          assert steps[j] == prev[j];
        } else if j == |prev| {
          assert steps[j].Attempt? && j % 2 == 0;
        } else {
          assert j == |prev| + 1 && steps[j] == tail[0];
        }
      }
    }
  }

  /** So no pause comes before the first send or after the last one, and
      each pause sits between two sends. */
  lemma PausesOnlyBetweenSends(requests: seq<SendRequest>, transport: Transport)
    ensures var steps := Steps(requests, transport, |requests|);
      && (steps != [] ==> steps[0].Attempt? && Last(steps).Attempt?)
      && forall j :: 0 <= j < |steps| && steps[j].Pause? ==>
           0 < j < |steps| - 1 && steps[j - 1].Attempt? && steps[j + 1].Attempt?
  {
    StepsAlternate(requests, transport, |requests|);
  }

  /** At least one send succeeded exactly when the transport accepted some
      request. */
  lemma {:induction false} DeliveredIffSomeone(requests: seq<SendRequest>, transport: Transport, n: nat)
    requires n <= |requests|
    ensures Delivered(Steps(requests, transport, n)) > 0 <==>
      exists i :: 1 <= i <= n && DeliveredTo(requests, transport, i)
  {
    if n > 0 {
      DeliveredIffSomeone(requests, transport, n - 1);
      GrowCounts(Steps(requests, transport, n - 1), Attempt(requests[n - 1], transport(n, requests[n - 1])), n < |requests|);
      if transport(n, requests[n - 1]) {
        assert DeliveredTo(requests, transport, n);
      }
    }
  }
}
