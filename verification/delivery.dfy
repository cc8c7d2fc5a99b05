/** The retry loops around sending: a document is offered to the transport
    up to three times, a reply up to two times.  A timeout or network error
    before the last try leads to another try; at the last try it ends the
    loop with a give-up path; any other error leaves the loop as an
    exception.  What each loop does around the send is given as a trace of
    effects, so that its clean-up can be stated. */
module Delivery {
  import opened Wrappers

  /** The transport's answer to one try: it went through, it timed out or
      hit a network error, or it failed some other way. */
  datatype Attempt = Ok | Transient | Other

  /** How a retry loop ends. */
  datatype Exit =
    | Sent(attempt: nat)   // try number `attempt` (from 0) went through
    | GaveUp               // the last try timed out as well
    | Raised               // a try failed otherwise: the exception escapes
    | NotTried             // no try was allowed

  /** Tries for a document (the generated file and the converted CSV file). */
  const DocumentTries: nat := 3

  /** Tries for a text reply (`safe_reply`'s default). */
  const ReplyTries: nat := 2

  /** The answer to try `k`; tries beyond the answers given go through. */
  function Answer(answers: seq<Attempt>, k: nat): Attempt {
    if k < |answers| then answers[k] else Ok
  }

  /** The first try below `tries` that does not time out, or `tries`. */
  function Settle(answers: seq<Attempt>, tries: nat, k: nat): (r: nat)
    requires k <= tries
    decreases tries - k
    ensures k <= r <= tries
    ensures forall j :: k <= j < r ==> Answer(answers, j) == Transient
    ensures r < tries ==> Answer(answers, r) != Transient
  {
    if k == tries || Answer(answers, k) != Transient then k else Settle(answers, tries, k + 1)
  }

  /** The loop from try `k` on. */
  function RunFrom(tries: nat, answers: seq<Attempt>, k: nat): Exit
    requires k <= tries
    decreases tries - k
  {
    if k == tries then NotTried
    else match Answer(answers, k)
      case Ok => Sent(k)
      case Other => Raised
      case Transient => if k < tries - 1 then RunFrom(tries, answers, k + 1) else GaveUp
  }

  function Run(tries: nat, answers: seq<Attempt>): Exit {
    RunFrom(tries, answers, 0)
  }

  /** The loop is decided by the first try that does not time out: that try
      going through or failing otherwise, or, when every try times out,
      giving up. */
  lemma {:induction false} RunFromSettles(tries: nat, answers: seq<Attempt>, k: nat)
    requires k < tries
    ensures var s := Settle(answers, tries, k);
            RunFrom(tries, answers, k) ==
              if s == tries then GaveUp
              else if Answer(answers, s) == Ok then Sent(s)
              else Raised
    decreases tries - k
  {
    if Answer(answers, k) == Transient && k < tries - 1 {
      RunFromSettles(tries, answers, k + 1);
    }
  }

  /** The loop's outcome in terms of the answers. */
  lemma RunSpec(tries: nat, answers: seq<Attempt>)
    ensures Run(tries, answers) == NotTried <==> tries == 0
    ensures Run(tries, answers) == GaveUp <==>
            tries > 0 && forall j :: 0 <= j < tries ==> Answer(answers, j) == Transient
    ensures Run(tries, answers).Sent? ==>
            var k := Run(tries, answers).attempt;
            k < tries && Answer(answers, k) == Ok &&
            forall j :: 0 <= j < k ==> Answer(answers, j) == Transient
    ensures Run(tries, answers) == Raised ==>
            exists k :: (0 <= k < tries && Answer(answers, k) == Other &&
                         forall j :: 0 <= j < k ==> Answer(answers, j) == Transient)
  {
    if tries > 0 {
      RunFromSettles(tries, answers, 0);
      var s := Settle(answers, tries, 0);
      if s < tries {
        assert Answer(answers, s) != Transient;
      }
    }
  }

  /** With a transport that always answers, the first try goes through. */
  lemma ReliableFirstTry(tries: nat)
    requires tries > 0
    ensures Run(tries, []) == Sent(0)
  {
  }

  /** The loop as the program writes it, a `for` over the tries. */
  method Retry(tries: nat, answers: seq<Attempt>) returns (e: Exit)
    ensures e == Run(tries, answers)
  {
    var attempt := 0;
    while attempt < tries
      invariant 0 <= attempt <= tries
      invariant tries > 0 ==> attempt < tries
      invariant RunFrom(tries, answers, attempt) == Run(tries, answers)
    {
      match Answer(answers, attempt)
      case Ok =>
        return Sent(attempt);
      case Other =>
        return Raised;
      case Transient =>
        if attempt < tries - 1 {
          attempt := attempt + 1;
        } else {
          return GaveUp;
        }
    }
    return NotTried;
  }

  /** `safe_reply`: whether the reply got through.  Every error is caught,
      so nothing escapes. */
  function SafeReply(answers: seq<Attempt>): (delivered: bool)
    ensures delivered <==>
            Answer(answers, 0) == Ok || (Answer(answers, 0) == Transient && Answer(answers, 1) == Ok)
  {
    match Run(ReplyTries, answers)
    case Sent(_) => true
    case _ => false
  }

  /** A reply is lost exactly when both tries time out or the first try that
      does not time out fails otherwise. */
  lemma SafeReplySpec(answers: seq<Attempt>)
    ensures !SafeReply(answers) <==>
            (Answer(answers, 0) == Transient && Answer(answers, 1) == Transient)
            || Answer(answers, 0) == Other
            || (Answer(answers, 0) == Transient && Answer(answers, 1) == Other)
  {
  }

  // ---------------------------------------------------------------------------
  // What surrounds the loop
  // ---------------------------------------------------------------------------

  datatype Effect =
    | SendDocument(path: string, name: string)   // the try that went through
    | ReportTooLarge                             // the give-up message
    | ReportDone                                 // the closing success message
    | Remove(path: string)                       // a best-effort file removal
    | ClearSession                               // `user_data.clear()`

  /** The end of the generate and batch-generate callbacks: send the
      generated file, then remove it, report and end the session; after the
      last timeout, report, remove it and end the session; on any other
      error nothing more happens (the file stays). */
  function GeneratedDelivery(answers: seq<Attempt>, path: string): seq<Effect> {
    match Run(DocumentTries, answers)
    case Sent(_) => [SendDocument(path, path), Remove(path), ReportDone, ClearSession]
    case GaveUp => [ReportTooLarge, Remove(path), ClearSession]
    case Raised => []
    case NotTried => [Remove(path), ReportDone, ClearSession]
  }

  /** The optional text file removed before the CSV file. */
  function RemoveOptional(path: Option<string>): seq<Effect> {
    if path.Some? then [Remove(path.value)] else []
  }

  /** `send_csv_file`: send the CSV file under `name`, then remove the upload
      and the CSV file, report and end the session; after the last timeout,
      report, remove both and end the session; on any other error nothing
      more happens. */
  function CsvDelivery(answers: seq<Attempt>, csv: string, name: string, txt: Option<string>): seq<Effect> {
    CsvEffects(Run(DocumentTries, answers), csv, name, txt)
  }

  /** The effects of `send_csv_file` once the loop has ended with `e`. */
  function CsvEffects(e: Exit, csv: string, name: string, txt: Option<string>): seq<Effect> {
    match e
    case Sent(_) => [SendDocument(csv, name)] + RemoveOptional(txt) + [Remove(csv), ReportDone, ClearSession]
    case GaveUp => [ReportTooLarge] + RemoveOptional(txt) + [Remove(csv), ClearSession]
    case Raised => []
    case NotTried => RemoveOptional(txt) + [Remove(csv), ReportDone, ClearSession]
  }

  /** Unless the exception escapes, the generated file is removed and the
      session ends, whether or not the file went through; the file is sent
      at most once, and before its removal. */
  lemma GeneratedCleanup(answers: seq<Attempt>, path: string)
    ensures var fx := GeneratedDelivery(answers, path);
            Run(DocumentTries, answers) != Raised <==> Remove(path) in fx && ClearSession in fx
    ensures var fx := GeneratedDelivery(answers, path);
            Run(DocumentTries, answers) != Raised ==>
              && multiset(fx)[Remove(path)] == 1
              && multiset(fx)[ClearSession] == 1
              && multiset(fx)[SendDocument(path, path)] <= 1
    ensures var fx := GeneratedDelivery(answers, path);
            SendDocument(path, path) in fx <==> Run(DocumentTries, answers).Sent?
    ensures var fx := GeneratedDelivery(answers, path);
            Run(DocumentTries, answers) == Raised <==> fx == []
    ensures var fx := GeneratedDelivery(answers, path);
            Run(DocumentTries, answers).Sent? ==> fx[0] == SendDocument(path, path) && fx[1] == Remove(path)
  {
  }

  /** Unless the exception escapes, both files are removed and the session
      ends; the CSV file goes out under the chosen name only when a try went
      through, and before the removals. */
  lemma CsvCleanup(answers: seq<Attempt>, csv: string, name: string, txt: Option<string>)
    ensures var fx := CsvDelivery(answers, csv, name, txt);
            Run(DocumentTries, answers) != Raised <==> Remove(csv) in fx && ClearSession in fx
    ensures var fx := CsvDelivery(answers, csv, name, txt);
            txt.Some? && Run(DocumentTries, answers) != Raised ==> Remove(txt.value) in fx
    ensures var fx := CsvDelivery(answers, csv, name, txt);
            SendDocument(csv, name) in fx <==> Run(DocumentTries, answers).Sent?
    ensures var fx := CsvDelivery(answers, csv, name, txt);
            Run(DocumentTries, answers).Sent? ==> fx[0] == SendDocument(csv, name)
    ensures Run(DocumentTries, answers) == Raised <==> CsvDelivery(answers, csv, name, txt) == []
  {
    var fx := CsvDelivery(answers, csv, name, txt);
    var r := RemoveOptional(txt);
    match Run(DocumentTries, answers)
    case Sent(_) =>
      assert fx == [SendDocument(csv, name)] + r + [Remove(csv), ReportDone, ClearSession];
      assert fx[|fx| - 3] == Remove(csv) && fx[|fx| - 1] == ClearSession;
      if txt.Some? { assert fx[1] == Remove(txt.value); }
    case GaveUp =>
      assert fx[|fx| - 2] == Remove(csv) && fx[|fx| - 1] == ClearSession;
      assert SendDocument(csv, name) !in fx;
      if txt.Some? { assert fx[1] == Remove(txt.value); }
    case Raised =>
    case NotTried =>
  }

  /** The clean-up after the CSV send happens once: each file is removed
      once (twice only if the upload and the CSV file were the same path),
      the session is cleared once and the file is sent at most once. */
  lemma CsvCleanupOnce(answers: seq<Attempt>, csv: string, name: string, txt: Option<string>)
    requires Run(DocumentTries, answers) != Raised
    ensures var fx := CsvDelivery(answers, csv, name, txt);
            && multiset(fx)[Remove(csv)] == (if txt == Some(csv) then 2 else 1)
            && (txt.Some? && txt.value != csv ==> multiset(fx)[Remove(txt.value)] == 1)
            && multiset(fx)[ClearSession] == 1
            && multiset(fx)[SendDocument(csv, name)] <= 1
  {
    CsvEffectsOnce(Run(DocumentTries, answers), csv, name, txt);
  }

  lemma CsvEffectsOnce(e: Exit, csv: string, name: string, txt: Option<string>)
    requires e != Raised
    ensures var fx := CsvEffects(e, csv, name, txt);
            && multiset(fx)[Remove(csv)] == (if txt == Some(csv) then 2 else 1)
            && (txt.Some? && txt.value != csv ==> multiset(fx)[Remove(txt.value)] == 1)
            && multiset(fx)[ClearSession] == 1
            && multiset(fx)[SendDocument(csv, name)] <= 1
  {
    var r := RemoveOptional(txt);
    if e.Sent? {
      ShapeOnce([SendDocument(csv, name)], r, [Remove(csv), ReportDone, ClearSession], csv, name, txt);
    } else if e == GaveUp {
      ShapeOnce([ReportTooLarge], r, [Remove(csv), ClearSession], csv, name, txt);
    } else {
      assert [] + r == r;
      ShapeOnce([], r, [Remove(csv), ReportDone, ClearSession], csv, name, txt);
    }
  }

  lemma ShapeOnce(head: seq<Effect>, r: seq<Effect>, tail: seq<Effect>, csv: string, name: string, txt: Option<string>)
    requires head == [] || head == [SendDocument(csv, name)] || head == [ReportTooLarge]
    requires tail == [Remove(csv), ClearSession] || tail == [Remove(csv), ReportDone, ClearSession]
    requires r == RemoveOptional(txt)
    ensures var fx := head + r + tail;
            && multiset(fx)[Remove(csv)] == (if txt == Some(csv) then 2 else 1)
            && (txt.Some? && txt.value != csv ==> multiset(fx)[Remove(txt.value)] == 1)
            && multiset(fx)[ClearSession] == 1
            && multiset(fx)[SendDocument(csv, name)] <= 1
  {
    assert multiset(head + r + tail) == multiset(head) + multiset(r) + multiset(tail);
    HeadCounts(head, csv, name, csv);
    TailCounts(tail, csv, name);
    OptionalCount(txt, Remove(csv));
    OptionalCount(txt, ClearSession);
    OptionalCount(txt, SendDocument(csv, name));
    if txt.Some? && txt.value != csv {
      HeadCounts(head, csv, name, txt.value);
      TailRemoves(tail, csv, txt.value);
      OptionalCount(txt, Remove(txt.value));
    }
  }

  /** What comes before the removals removes nothing and ends nothing. */
  lemma HeadCounts(head: seq<Effect>, csv: string, name: string, path: string)
    requires head == [] || head == [SendDocument(csv, name)] || head == [ReportTooLarge]
    ensures multiset(head)[Remove(path)] == 0 && multiset(head)[ClearSession] == 0
    ensures multiset(head)[SendDocument(csv, name)] <= 1
  {
  }

  /** How often the optional removal lists an effect. */
  lemma OptionalCount(txt: Option<string>, e: Effect)
    ensures multiset(RemoveOptional(txt))[e] == if txt.Some? && e == Remove(txt.value) then 1 else 0
  {
  }

  lemma TailCounts(tail: seq<Effect>, csv: string, name: string)
    requires tail == [Remove(csv), ClearSession] || tail == [Remove(csv), ReportDone, ClearSession]
    ensures multiset(tail)[Remove(csv)] == 1 && multiset(tail)[ClearSession] == 1
    ensures multiset(tail)[SendDocument(csv, name)] == 0
  {
  }

  lemma TailRemoves(tail: seq<Effect>, csv: string, other: string)
    requires tail == [Remove(csv), ClearSession] || tail == [Remove(csv), ReportDone, ClearSession]
    requires other != csv
    ensures multiset(tail)[Remove(other)] == 0
  {
  }
}
