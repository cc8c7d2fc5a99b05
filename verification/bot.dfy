/** The bot as a whole: one update at a time (a command, a text message, a
    button press or an uploaded document) takes the user's session and the
    files on disk to new ones and produces what the user is shown. */
module Bot {
  import opened Wrappers
  import opened Text
  import opened TextFile
  import opened Session
  import Generator
  import Converter
  import Csv
  import Names
  import Delivery
  import Dialogue

  /** The files on disk, by path. */
  type Files = map<string, string>

  datatype World = World(user: UserData, files: Files)

  datatype Command = StartCmd | BatchCmd | ConvertCmd | HelpCmd | CancelCmd

  datatype Button = CancelGen | Generate | UseDefault | RenameFile | CsvCancel | BatchGenerate

  /** An uploaded document; its size is the length of its content. */
  datatype Upload = Upload(fileId: string, fileName: Option<string>, content: string)

  datatype Event =
    | Cmd(command: Command)
    | Message(text: string)
    | Press(button: Button)
    | Attach(doc: Option<Upload>)

  /** The world after an update and what the user was shown, in order. */
  datatype Outcome = Outcome(world: World, out: seq<Output>)

  function Says(ns: seq<Notice>): (out: seq<Output>)
    ensures |out| == |ns| && forall i :: 0 <= i < |ns| ==> out[i] == Say(ns[i])
  {
    seq(|ns|, i requires 0 <= i < |ns| => Say(ns[i]))
  }

  /** A path that Python takes as true: present and not empty. */
  predicate Present(p: Option<string>) {
    p.Some? && p.value != []
  }

  /** What is true of every world the bot reaches: a valid session whose
      recorded CSV file is on disk. */
  predicate ValidWorld(w: World) {
    Valid(w.user) && (w.user.fields.csvPath.Some? ==> w.user.fields.csvPath.value in w.files)
  }

  // ---------------------------------------------------------------------------
  // Carrying out the effects of a delivery
  // ---------------------------------------------------------------------------

  function ApplyOne(w: World, e: Delivery.Effect, content: string, count: int): Outcome {
    match e
    case SendDocument(_, name) => Outcome(w, [Document(name, content)])
    case ReportTooLarge => Outcome(w, [Say(TooLarge)])
    case ReportDone => Outcome(w, [Say(Done(count))])
    case Remove(p) => Outcome(w.(files := w.files - {p}), [])
    case ClearSession => Outcome(w.(user := Cleared), [])
  }

  /** The effects in order; the document sent holds `content`, and the
      closing message reports `count`. */
  function Apply(w: World, fx: seq<Delivery.Effect>, content: string, count: int): Outcome
    decreases |fx|
  {
    if fx == [] then Outcome(w, [])
    else
      var first := ApplyOne(w, fx[0], content, count);
      var rest := Apply(first.world, fx[1..], content, count);
      Outcome(rest.world, first.out + rest.out)
  }

  /** Only clearing touches the session, and only the removals touch the
      files: a file survives exactly when it is not removed. */
  lemma {:induction false} ApplySpec(w: World, fx: seq<Delivery.Effect>, content: string, count: int)
    ensures Apply(w, fx, content, count).world.user == if Delivery.ClearSession in fx then Cleared else w.user
    ensures forall p :: p in Apply(w, fx, content, count).world.files <==> p in w.files && Delivery.Remove(p) !in fx
    ensures forall p :: p in Apply(w, fx, content, count).world.files ==>
              Apply(w, fx, content, count).world.files[p] == w.files[p]
    decreases |fx|
  {
    if fx != [] {
      var first := ApplyOne(w, fx[0], content, count);
      ApplySpec(first.world, fx[1..], content, count);
      assert forall e :: e in fx <==> e == fx[0] || e in fx[1..];
    }
  }

  // ---------------------------------------------------------------------------
  // Commands
  // ---------------------------------------------------------------------------

  /** `/start`, `/batch` and `/txt2csv` begin their dialogue afresh, `/help`
      only answers, `/cancel` ends the session; none touches the files. */
  function OnCommand(w: World, c: Command): (o: Outcome)
    ensures o.world.files == w.files
  {
    match c
    case StartCmd => Outcome(w.(user := Begin(Single, FirstLetters)), [Say(Welcome(Single))])
    case BatchCmd => Outcome(w.(user := Begin(Batch, FirstLetters)), [Say(Welcome(Batch))])
    case ConvertCmd => Outcome(w.(user := Begin(Txt2Csv, WaitingFile)), [Say(Welcome(Txt2Csv))])
    case HelpCmd => Outcome(w, [Say(HelpText)])
    case CancelCmd => Outcome(w.(user := Cleared), [Say(Cancelled)])
  }

  // ---------------------------------------------------------------------------
  // Sending the converted file
  // ---------------------------------------------------------------------------

  /** `send_csv_file`: the CSV file at `csv` goes out under `name` with the
      retry loop.  A missing file or an error other than a timeout escapes:
      nothing changes and the handler's error notice `escape` is shown. */
  function SendCsv(w: World, csv: string, name: string, answers: seq<Delivery.Attempt>, escape: Notice): Outcome {
    if csv !in w.files then Outcome(w, [Say(escape)])
    else
      var fx := Delivery.CsvDelivery(answers, csv, name, w.user.fields.txtPath);
      if fx == [] then Outcome(w, [Say(escape)])
      else Apply(w, fx, w.files[csv], w.user.fields.lineCount.GetOr(0))
  }

  /** The typed name, stripped, at the rename step. */
  function OnRename(w: World, text: string, answers: seq<Delivery.Attempt>): Outcome {
    var f := w.user.fields;
    if !Present(f.csvPath) then Outcome(w.(user := Cleared), [Say(FileNotFound)])
    else match Names.CleanName(text)
      case None => Outcome(w, [Say(InvalidName)])
      case Some(name) => SendCsv(w, f.csvPath.value, name, answers, HandlerError)
  }

  // ---------------------------------------------------------------------------
  // Text messages
  // ---------------------------------------------------------------------------

  /** `handle_message`: an empty message or a session without a mode is
      ignored; otherwise the stripped text goes to the rename step or to
      the generation dialogue of the session's mode. */
  function OnText(w: World, raw: string, answers: seq<Delivery.Attempt>): Outcome {
    if raw == [] || w.user.mode.None? then Outcome(w, [])
    else
      var text := Strip(raw);
      var mode := w.user.mode.value;
      if mode == Txt2Csv && w.user.step == Some(WaitingRename) then OnRename(w, text, answers)
      else if mode == Txt2Csv then Outcome(w, [])
      else
        var r := Dialogue.OnAnswer(w.user, mode, text);
        Outcome(w.(user := r.user), Says(r.notices))
  }

  // ---------------------------------------------------------------------------
  // Generating
  // ---------------------------------------------------------------------------

  /** The five answers handed to `generate_vehicle_numbers`, checked in its
      order; `None` when a missing answer reaches `len()` first and the
      `TypeError` escapes. */
  function SingleFromSession(f: Fields): (r: Option<Result<Generator.Generated, Generator.GenError>>)
    ensures f.first.Some? && f.second.Some? && f.third.Some? && f.start.Some? && f.end.Some? ==>
              r == Some(Generator.GenerateSingle(f.first.value, f.second.value, f.third.value, f.start.value, f.end.value))
    ensures r.None? ==> f.first.None? || f.second.None? || f.third.None? || f.start.None? || f.end.None?
  {
    if f.first.None? then None
    else if !Generator.IsLetterPair(f.first.value) then Some(Failure(Generator.BadFirstPart))
    else if f.second.None? then None
    else if !Generator.IsDigitPair(f.second.value) then Some(Failure(Generator.BadSecondPart))
    else if f.third.None? then None
    else if !Generator.IsLetterPair(f.third.value) then Some(Failure(Generator.BadSeries))
    else if f.start.None? then None
    else if !Generator.IsDigitQuad(f.start.value) then Some(Failure(Generator.BadStart))
    else if f.end.None? then None
    else Some(Generator.GenerateSingle(f.first.value, f.second.value, f.third.value, f.start.value, f.end.value))
  }

  /** The same for `generate_batch_vehicle_numbers`; a missing series list
      reads as the empty list. */
  function BatchFromSession(f: Fields): (r: Option<Result<Generator.Generated, Generator.GenError>>)
    ensures f.first.Some? && f.second.Some? && f.start.Some? && f.end.Some? ==>
              r == Some(Generator.GenerateBatch(f.first.value, f.second.value, f.series.GetOr([]), f.start.value, f.end.value))
    ensures r.None? ==> f.first.None? || f.second.None? || f.start.None? || f.end.None?
  {
    if f.first.None? then None
    else if !Generator.IsLetterPair(f.first.value) then Some(Failure(Generator.BadFirstPart))
    else if f.second.None? then None
    else if !Generator.IsDigitPair(f.second.value) then Some(Failure(Generator.BadSecondPart))
    else if f.start.None? then None
    else if !Generator.IsDigitQuad(f.start.value) then Some(Failure(Generator.BadStart))
    else if f.end.None? then None
    else Some(Generator.GenerateBatch(f.first.value, f.second.value, f.series.GetOr([]), f.start.value, f.end.value))
  }

  function Verdict(f: Fields, batch: bool): Option<Result<Generator.Generated, Generator.GenError>> {
    if batch then BatchFromSession(f) else SingleFromSession(f)
  }

  /** Write the generated file, count its lines back, and send it with the
      retry loop. */
  function Deliver(w: World, g: Generator.Generated, answers: seq<Delivery.Attempt>): Outcome {
    var content := WriteLines(g.numbers);
    var w1 := w.(files := w.files[g.fileName := content]);
    var count := |ReadLines(Translate(content))|;
    var fx := Delivery.GeneratedDelivery(answers, g.fileName);
    if fx == [] then Outcome(w1, [Say(Crashed)])
    else Apply(w1, fx, content, count)
  }

  /** What follows the "generating" notice, given the generator's verdict. */
  function AfterVerdict(w: World, verdict: Option<Result<Generator.Generated, Generator.GenError>>,
                     answers: seq<Delivery.Attempt>): Outcome {
    match verdict
    case None => Outcome(w, [Say(Crashed)])
    case Some(Failure(e)) => Outcome(w.(user := Cleared), [Say(GenerationFailed(e))])
    case Some(Success(g)) => Deliver(w, g, answers)
  }

  /** The generate buttons: they look at the mode only, not at the step. */
  function OnGenerate(w: World, batch: bool, answers: seq<Delivery.Attempt>): Outcome {
    if w.user.mode != Some(if batch then Batch else Single) then Outcome(w, [])
    else
      var o := AfterVerdict(w, Verdict(w.user.fields, batch), answers);
      Outcome(o.world, [Say(Generating)] + o.out)
  }

  // ---------------------------------------------------------------------------
  // Buttons
  // ---------------------------------------------------------------------------

  /** `button_callback`. */
  function OnButton(w: World, b: Button, answers: seq<Delivery.Attempt>): Outcome {
    var f := w.user.fields;
    match b
    case CancelGen => Outcome(w.(user := Cleared), [Say(GenerationCancelled)])
    case Generate => OnGenerate(w, false, answers)
    case BatchGenerate => OnGenerate(w, true, answers)
    case UseDefault =>
      if Present(f.csvPath) then
        var o := SendCsv(w, f.csvPath.value, f.defaultName.GetOr(Names.FallbackCsv), answers, Crashed);
        Outcome(o.world, [Say(SendingDefault)] + o.out)
      else Outcome(w.(user := Cleared), [Say(FileNotFound)])
    case RenameFile => Outcome(w.(user := w.user.(step := Some(WaitingRename))), [Say(RenamePrompt)])
    case CsvCancel =>
      var files1 := if Present(f.csvPath) then w.files - {f.csvPath.value} else w.files;
      var files2 := if Present(f.txtPath) then files1 - {f.txtPath.value} else files1;
      Outcome(World(Cleared, files2), [Say(CsvCancelled)])
  }

  // ---------------------------------------------------------------------------
  // Documents
  // ---------------------------------------------------------------------------

  function TxtPath(d: Upload): string { "temp_" + d.fileId + ".txt" }

  function CsvPath(d: Upload): string { "converted_" + d.fileId + ".csv" }

  /** Download, size test, conversion and the rename offer. */
  function ConvertUpload(w: World, d: Upload, name: string): Outcome {
    var txt := TxtPath(d);
    var files := w.files[txt := d.content];
    if !Names.AcceptsSize(|d.content|) then
      Outcome(w.(files := files - {txt}), [Say(Downloading), Say(FileTooBig)])
    else
      var csv := CsvPath(d);
      var c := Converter.ConvertFile(d.content);
      var written := if c.csv.Some? then files[csv := c.csv.value] else files;
      match c.result
      case Failure(e) =>
        Outcome(w.(files := written - {txt}), [Say(Downloading), Say(Converting), Say(ConversionFailed(e))])
      case Success(_) =>
        var count := Converter.RecordCount(c.csv.value);
        var offered := Names.DefaultName(name);
        var u := w.user.(step := Some(AskRename),
                         fields := w.user.fields.(csvPath := Some(csv), txtPath := Some(txt),
                                                  defaultName := Some(offered), lineCount := Some(count)));
        Outcome(World(u, written), [Say(Downloading), Say(Converting), Say(Converted(count, offered))])
  }

  /** `handle_document`: only while a conversion dialogue waits for a file,
      and only for a name ending in ".txt" in any case. */
  function OnDocument(w: World, doc: Option<Upload>): Outcome {
    if w.user.mode != Some(Txt2Csv) || w.user.step != Some(WaitingFile) then Outcome(w, [])
    else if doc.None? then Outcome(w, [Say(NoFile)])
    else
      var name := Names.UploadName(doc.value.fileName);
      if !Names.AcceptsName(name) then Outcome(w, [Say(NotTxt)])
      else ConvertUpload(w, doc.value, name)
  }

  // ---------------------------------------------------------------------------
  // One update
  // ---------------------------------------------------------------------------

  /** One update; `answers` are the transport's answers to the document
      sends the update makes. */
  function Handle(w: World, e: Event, answers: seq<Delivery.Attempt>): Outcome {
    match e
    case Cmd(c) => OnCommand(w, c)
    case Message(text) => OnText(w, text, answers)
    case Press(b) => OnButton(w, b, answers)
    case Attach(doc) => OnDocument(w, doc)
  }

  // ---------------------------------------------------------------------------
  // Every update keeps the world valid
  // ---------------------------------------------------------------------------

  lemma CommandKeepsValid(w: World, c: Command)
    requires ValidWorld(w)
    ensures ValidWorld(OnCommand(w, c).world)
  {
  }

  /** Sending the CSV file either changes nothing or ends the session. */
  lemma SendCsvKeepsValid(w: World, csv: string, name: string, answers: seq<Delivery.Attempt>, escape: Notice)
    requires ValidWorld(w)
    ensures ValidWorld(SendCsv(w, csv, name, answers, escape).world)
  {
    if csv in w.files {
      var fx := Delivery.CsvDelivery(answers, csv, name, w.user.fields.txtPath);
      Delivery.CsvCleanup(answers, csv, name, w.user.fields.txtPath);
      ApplySpec(w, fx, w.files[csv], w.user.fields.lineCount.GetOr(0));
    }
  }

  lemma TextKeepsValid(w: World, raw: string, answers: seq<Delivery.Attempt>)
    requires ValidWorld(w)
    ensures ValidWorld(OnText(w, raw, answers).world)
  {
    if raw != [] && w.user.mode.Some? {
      var text := Strip(raw);
      var mode := w.user.mode.value;
      if mode == Txt2Csv && w.user.step == Some(WaitingRename) {
        if Present(w.user.fields.csvPath) && Names.CleanName(text).Some? {
          SendCsvKeepsValid(w, w.user.fields.csvPath.value, Names.CleanName(text).value, answers, HandlerError);
        }
      } else if mode != Txt2Csv {
        Dialogue.AnswerKeepsValid(w.user, mode, text);
      }
    }
  }

  /** Delivering a generated file either leaves the session as it was or
      ends it. */
  lemma DeliverKeepsValid(w: World, g: Generator.Generated, answers: seq<Delivery.Attempt>)
    requires ValidWorld(w)
    ensures ValidWorld(Deliver(w, g, answers).world)
  {
    var content := WriteLines(g.numbers);
    var w1 := w.(files := w.files[g.fileName := content]);
    var fx := Delivery.GeneratedDelivery(answers, g.fileName);
    Delivery.GeneratedCleanup(answers, g.fileName);
    ApplySpec(w1, fx, content, |ReadLines(Translate(content))|);
  }

  lemma GenerateKeepsValid(w: World, batch: bool, answers: seq<Delivery.Attempt>)
    requires ValidWorld(w)
    ensures ValidWorld(OnGenerate(w, batch, answers).world)
  {
    var verdict := Verdict(w.user.fields, batch);
    if verdict.Some? && verdict.value.Success? {
      DeliverKeepsValid(w, verdict.value.value, answers);
    }
  }

  lemma ButtonKeepsValid(w: World, b: Button, answers: seq<Delivery.Attempt>)
    requires ValidWorld(w)
    ensures ValidWorld(OnButton(w, b, answers).world)
  {
    var f := w.user.fields;
    match b
    case Generate => GenerateKeepsValid(w, false, answers);
    case BatchGenerate => GenerateKeepsValid(w, true, answers);
    case UseDefault =>
      if Present(f.csvPath) {
        SendCsvKeepsValid(w, f.csvPath.value, f.defaultName.GetOr(Names.FallbackCsv), answers, Crashed);
      }
    case _ =>
  }

  /** Recording the converted files keeps a waiting session valid. */
  lemma RecordKeepsValid(u: UserData, csv: string, txt: string, offered: string, count: int)
    requires Valid(u) && u.mode == Some(Txt2Csv) && u.step == Some(WaitingFile)
    ensures Valid(u.(step := Some(AskRename),
                     fields := u.fields.(csvPath := Some(csv), txtPath := Some(txt),
                                         defaultName := Some(offered), lineCount := Some(count))))
  {
  }

  /** A conversion records its files only when it succeeds, and the CSV file
      is then on disk. */
  lemma ConvertKeepsValid(w: World, d: Upload, name: string)
    requires ValidWorld(w) && w.user.mode == Some(Txt2Csv) && w.user.step == Some(WaitingFile)
    ensures ValidWorld(ConvertUpload(w, d, name).world)
  {
    var c := Converter.ConvertFile(d.content);
    if Names.AcceptsSize(|d.content|) && c.result.Success? {
      RecordKeepsValid(w.user, CsvPath(d), TxtPath(d), Names.DefaultName(name), Converter.RecordCount(c.csv.value));
    }
  }

  lemma DocumentKeepsValid(w: World, doc: Option<Upload>)
    requires ValidWorld(w)
    ensures ValidWorld(OnDocument(w, doc).world)
  {
    if w.user.mode == Some(Txt2Csv) && w.user.step == Some(WaitingFile) && doc.Some? {
      var name := Names.UploadName(doc.value.fileName);
      if Names.AcceptsName(name) {
        ConvertKeepsValid(w, doc.value, name);
      }
    }
  }

  /** The bot's invariant: whatever the update and whatever the transport
      answers, a valid world stays valid. */
  lemma HandleKeepsValid(w: World, e: Event, answers: seq<Delivery.Attempt>)
    requires ValidWorld(w)
    ensures ValidWorld(Handle(w, e, answers).world)
  {
    match e
    case Cmd(c) => CommandKeepsValid(w, c);
    case Message(text) => TextKeepsValid(w, text, answers);
    case Press(b) => ButtonKeepsValid(w, b, answers);
    case Attach(doc) => DocumentKeepsValid(w, doc);
  }

  // ---------------------------------------------------------------------------
  // Commands
  // ---------------------------------------------------------------------------

  /** A command that begins a dialogue starts it from its first step with no
      answers, whatever came before; files on disk stay. */
  lemma CommandsBegin(w: World)
    ensures Handle(w, Cmd(StartCmd), []).world == World(UserData(Some(Single), Some(FirstLetters), NoFields), w.files)
    ensures Handle(w, Cmd(BatchCmd), []).world == World(UserData(Some(Batch), Some(FirstLetters), NoFields), w.files)
    ensures Handle(w, Cmd(ConvertCmd), []).world == World(UserData(Some(Txt2Csv), Some(WaitingFile), NoFields), w.files)
    ensures Handle(w, Cmd(HelpCmd), []).world == w
  {
  }

  /** Cancelling after a conversion forgets the converted files but leaves
      them on disk: `/cancel` removes nothing. */
  /** `/cancel` ends any session, whatever its mode or step, and touches no
      file. */
  lemma CancelCommandClears(w: World, answers: seq<Delivery.Attempt>)
    ensures Handle(w, Cmd(CancelCmd), answers) == Outcome(w.(user := Cleared), [Say(Cancelled)])
  {
  }

  /** The cancel button of a generation dialogue does the same, without
      even looking at the mode. */
  lemma CancelButtonClears(w: World, answers: seq<Delivery.Attempt>)
    ensures Handle(w, Press(CancelGen), answers) == Outcome(w.(user := Cleared), [Say(GenerationCancelled)])
  {
  }

  /** Text is ignored without a mode, at the confirmation step, and in a
      conversion dialogue outside the rename step. */
  lemma TextIgnored(w: World, raw: string, answers: seq<Delivery.Attempt>)
    requires || w.user.mode.None?
             || w.user.step == Some(Confirm)
             || (w.user.mode == Some(Txt2Csv) && w.user.step != Some(WaitingRename))
    ensures Handle(w, Message(raw), answers) == Outcome(w, [])
  {
  }

  lemma CancelOrphansFiles(w: World, answers: seq<Delivery.Attempt>)
    requires ValidWorld(w) && w.user.fields.csvPath.Some?
    ensures var after := Handle(w, Cmd(CancelCmd), answers).world;
            && after.user.fields.csvPath.None?
            && w.user.fields.csvPath.value in after.files
            && after.files == w.files
  {
  }

  // ---------------------------------------------------------------------------
  // Generating
  // ---------------------------------------------------------------------------

  /** Written identifiers read back as one line each. */
  lemma CountWritten(numbers: seq<string>)
    requires forall k :: 0 <= k < |numbers| ==> Generator.IsIdentifier(numbers[k])
    ensures |ReadLines(Translate(WriteLines(numbers)))| == |numbers|
  {
    forall k | 0 <= k < |numbers| ensures Lacks(numbers[k], '\r') && Lacks(numbers[k], '\n') {
      Converter.IdentifierIsVehicle(numbers[k]);
    }
    Converter.WrittenLacksCR(numbers);
    TranslateKeeps(WriteLines(numbers), "");
    assert WriteLines(numbers) + "" == WriteLines(numbers);
    ReadWritten(numbers);
  }

  /** The effects of a delivery that went through at once. */
  lemma ApplySent(w: World, path: string, content: string, count: int)
    ensures Apply(w, [Delivery.SendDocument(path, path), Delivery.Remove(path), Delivery.ReportDone, Delivery.ClearSession],
                  content, count)
            == Outcome(World(Cleared, w.files - {path}), [Document(path, content), Say(Done(count))])
  {
    var fx := [Delivery.SendDocument(path, path), Delivery.Remove(path), Delivery.ReportDone, Delivery.ClearSession];
    var w1 := w.(files := w.files - {path});
    assert fx[1..] == [Delivery.Remove(path), Delivery.ReportDone, Delivery.ClearSession];
    assert fx[1..][1..] == [Delivery.ReportDone, Delivery.ClearSession];
    assert fx[1..][1..][1..] == [Delivery.ClearSession];
    assert Apply(w1, [Delivery.ClearSession], content, count) == Outcome(w1.(user := Cleared), []);
    assert Apply(w1, [Delivery.ReportDone, Delivery.ClearSession], content, count)
           == Outcome(w1.(user := Cleared), [Say(Done(count))]);
  }

  /** Delivering a generated file over a transport that answers at once: the
      file goes out, is removed again, the count of its lines is reported,
      and the session ends. */
  lemma DeliverReliably(w: World, g: Generator.Generated)
    requires forall k :: 0 <= k < |g.numbers| ==> Generator.IsIdentifier(g.numbers[k])
    ensures Deliver(w, g, []) ==
            Outcome(World(Cleared, w.files - {g.fileName}),
                    [Document(g.fileName, WriteLines(g.numbers)), Say(Done(|g.numbers|))])
  {
    var content := WriteLines(g.numbers);
    var w1 := w.(files := w.files[g.fileName := content]);
    CountWritten(g.numbers);
    Delivery.ReliableFirstTry(Delivery.DocumentTries);
    ApplySent(w1, g.fileName, content, |g.numbers|);
    assert w1.files - {g.fileName} == w.files - {g.fileName};
  }

  /** Confirming a single-series dialogue, with a transport that answers at
      once: the generator accepts the stored answers, the user receives the
      file of all identifiers of the range, the file is removed again and the
      session ends. */
  lemma GenerateAtConfirm(w: World)
    requires ValidWorld(w) && w.user.mode == Some(Single) && w.user.step == Some(Confirm)
    ensures var f := w.user.fields;
            var r := Generator.GenerateSingle(f.first.value, f.second.value, f.third.value, f.start.value, f.end.value);
            && r.Success?
            && Handle(w, Press(Generate), []) ==
               Outcome(World(Cleared, w.files - {r.value.fileName}),
                       [Say(Generating), Document(r.value.fileName, WriteLines(r.value.numbers)),
                        Say(Done(|r.value.numbers|))])
  {
    ConfirmReady(w.user);
    var f := w.user.fields;
    var r := Generator.GenerateSingle(f.first.value, f.second.value, f.third.value, f.start.value, f.end.value);
    assert r.Success?;
    PressGenerate(w, false, []);
    DeliverReliably(w, r.value);
  }

  /** Series that are two upper-case letters each are their own normal form. */
  lemma NormalizedPairs(list: seq<string>)
    requires forall i :: 0 <= i < |list| ==> UpperPair(list[i])
    ensures Generator.Normalized(list) == list
  {
    forall i | 0 <= i < |list| ensures Generator.Normalized(list)[i] == list[i] {
      Generator.NormalizedAt(list, i);
      Generator.NormalizeFixes(list[i]);
    }
  }

  /** The same for a batch: the file holds the range for every series. */
  lemma BatchGenerateAtConfirm(w: World)
    requires ValidWorld(w) && w.user.mode == Some(Batch) && w.user.step == Some(Confirm)
    ensures var f := w.user.fields;
            var r := Generator.GenerateBatch(f.first.value, f.second.value, f.series.value, f.start.value, f.end.value);
            && r.Success?
            && |r.value.numbers| == |f.series.value| * (ParseNat(f.end.value) - ParseNat(f.start.value) + 1)
            && Handle(w, Press(BatchGenerate), []) ==
               Outcome(World(Cleared, w.files - {r.value.fileName}),
                       [Say(Generating), Document(r.value.fileName, WriteLines(r.value.numbers)),
                        Say(Done(|r.value.numbers|))])
  {
    ConfirmReady(w.user);
    var f := w.user.fields;
    var list := f.series.value;
    NormalizedPairs(list);
    var r := Generator.GenerateBatch(f.first.value, f.second.value, list, f.start.value, f.end.value);
    assert Generator.AllPairs(Generator.Normalized(list));
    assert r.Success?;
    Generator.TimesIsProduct(|list|, ParseNat(f.end.value) - ParseNat(f.start.value) + 1);
    Generator.BatchIdentifiers(f.first.value, f.second.value, list, f.start.value, f.end.value);
    PressGenerate(w, true, []);
    DeliverReliably(w, r.value);
  }

  /** The generate buttons check the mode but not the step: pressed before
      the last answer (an old button, say), they show the "generating"
      notice and fail on the missing answer, changing nothing. */
  lemma EarlyGenerate(w: World, batch: bool, answers: seq<Delivery.Attempt>)
    requires ValidWorld(w) && w.user.mode == Some(if batch then Batch else Single)
    requires w.user.step.Some? && 0 <= Rank(w.user.step.value) < Rank(Confirm)
    ensures Handle(w, Press(if batch then BatchGenerate else Generate), answers)
            == Outcome(w, [Say(Generating), Say(Crashed)])
  {
    assert Verdict(w.user.fields, batch).None?;
    PressGenerate(w, batch, answers);
  }

  /** At the confirmation step of a valid session the generator accepts
      the stored answers. */
  lemma ConfirmAccepted(w: World, batch: bool)
    requires ValidWorld(w) && w.user.mode == Some(if batch then Batch else Single) && w.user.step == Some(Confirm)
    ensures Verdict(w.user.fields, batch).Some? && Verdict(w.user.fields, batch).value.Success?
  {
    ConfirmReady(w.user);
    if batch {
      NormalizedPairs(w.user.fields.series.value);
      assert Generator.AllPairs(Generator.Normalized(w.user.fields.series.value));
    }
  }

  /** A generate button pressed in its own mode. */
  lemma PressGenerate(w: World, batch: bool, answers: seq<Delivery.Attempt>)
    requires w.user.mode == Some(if batch then Batch else Single)
    ensures var o := AfterVerdict(w, Verdict(w.user.fields, batch), answers);
            Handle(w, Press(if batch then BatchGenerate else Generate), answers) == Outcome(o.world, [Say(Generating)] + o.out)
  {
  }

  /** An escaping send leaves the written file and changes nothing else. */
  lemma DeliverEscapes(w: World, g: Generator.Generated, answers: seq<Delivery.Attempt>)
    requires Delivery.Run(Delivery.DocumentTries, answers) == Delivery.Raised
    ensures Deliver(w, g, answers) == Outcome(w.(files := w.files[g.fileName := WriteLines(g.numbers)]), [Say(Crashed)])
  {
  }

  /** At the confirmation step, when the send fails with an error other
      than a timeout, the exception escapes: the generated file stays on
      disk and the session is kept, so the button can be pressed again. */
  lemma GenerateEscapes(w: World, batch: bool, answers: seq<Delivery.Attempt>)
    requires ValidWorld(w) && w.user.mode == Some(if batch then Batch else Single) && w.user.step == Some(Confirm)
    requires Delivery.Run(Delivery.DocumentTries, answers) == Delivery.Raised
    ensures var v := Verdict(w.user.fields, batch);
            var o := Handle(w, Press(if batch then BatchGenerate else Generate), answers);
            && v.Some? && v.value.Success?
            && o.world == w.(files := w.files[v.value.value.fileName := WriteLines(v.value.value.numbers)])
            && o.out == [Say(Generating), Say(Crashed)]
  {
    ConfirmAccepted(w, batch);
    PressGenerate(w, batch, answers);
    DeliverEscapes(w, Verdict(w.user.fields, batch).value.value, answers);
  }

  // ---------------------------------------------------------------------------
  // Buttons of the conversion dialogue
  // ---------------------------------------------------------------------------

  /** The rename button does not check the mode: pressed during a generation
      dialogue it moves the session to the rename step, where every text
      message is then ignored until a command starts over. */
  lemma RenameStallsDialogue(w: World, text: string, answers: seq<Delivery.Attempt>)
    requires w.user.mode == Some(Single) || w.user.mode == Some(Batch)
    ensures var w1 := Handle(w, Press(RenameFile), answers).world;
            w1.user.step == Some(WaitingRename) && Handle(w1, Message(text), answers) == Outcome(w1, [])
  {
  }

  /** The effects of sending the CSV file when a try went through: the file
      goes out under the chosen name, both files are removed, the record
      count is reported and the session ends. */
  lemma ApplyCsvSent(w: World, csv: string, name: string, txt: Option<string>, content: string, count: int)
    ensures var fx := [Delivery.SendDocument(csv, name)] + Delivery.RemoveOptional(txt)
                      + [Delivery.Remove(csv), Delivery.ReportDone, Delivery.ClearSession];
            var gone := if txt.Some? then (w.files - {txt.value}) - {csv} else w.files - {csv};
            Apply(w, fx, content, count) == Outcome(World(Cleared, gone), [Document(name, content), Say(Done(count))])
  {
    var tail := [Delivery.Remove(csv), Delivery.ReportDone, Delivery.ClearSession];
    var fx := [Delivery.SendDocument(csv, name)] + Delivery.RemoveOptional(txt) + tail;
    var w2 := if txt.Some? then w.(files := w.files - {txt.value}) else w;
    var w3 := w2.(files := w2.files - {csv});
    assert tail[1..] == [Delivery.ReportDone, Delivery.ClearSession];
    assert tail[1..][1..] == [Delivery.ClearSession];
    assert Apply(w3, [Delivery.ClearSession], content, count) == Outcome(w3.(user := Cleared), []);
    assert Apply(w3, tail[1..], content, count) == Outcome(w3.(user := Cleared), [Say(Done(count))]);
    assert Apply(w2, tail, content, count) == Outcome(w3.(user := Cleared), [Say(Done(count))]);
    if txt.Some? {
      assert fx[1..] == [Delivery.Remove(txt.value)] + tail;
      assert ([Delivery.Remove(txt.value)] + tail)[1..] == tail;
    } else {
      assert fx[1..] == tail;
    }
  }

  /** A typed name at the rename step, with a transport that answers at
      once: the CSV file goes out under the cleaned name, both files are
      removed, and the session ends. */
  lemma RenameSends(w: World, raw: string)
    requires ValidWorld(w) && w.user.mode == Some(Txt2Csv) && w.user.step == Some(WaitingRename)
    requires Present(w.user.fields.csvPath) && raw != [] && Names.CleanName(Strip(raw)).Some?
    ensures var f := w.user.fields;
            var csv := f.csvPath.value;
            Handle(w, Message(raw), []) ==
            Outcome(World(Cleared, (w.files - {f.txtPath.value}) - {csv}),
                    [Document(Names.CleanName(Strip(raw)).value, w.files[csv]), Say(Done(f.lineCount.GetOr(0)))])
  {
    var f := w.user.fields;
    Delivery.ReliableFirstTry(Delivery.DocumentTries);
    ApplyCsvSent(w, f.csvPath.value, Names.CleanName(Strip(raw)).value, f.txtPath, w.files[f.csvPath.value], f.lineCount.GetOr(0));
  }

  /** The default-name button, with a transport that answers at once, sends
      the CSV file under the name offered after the conversion. */
  lemma DefaultSends(w: World)
    requires ValidWorld(w) && Present(w.user.fields.csvPath)
    ensures var f := w.user.fields;
            var csv := f.csvPath.value;
            Handle(w, Press(UseDefault), []) ==
            Outcome(World(Cleared, (w.files - {f.txtPath.value}) - {csv}),
                    [Say(SendingDefault), Document(f.defaultName.GetOr(Names.FallbackCsv), w.files[csv]),
                     Say(Done(f.lineCount.GetOr(0)))])
  {
    var f := w.user.fields;
    Delivery.ReliableFirstTry(Delivery.DocumentTries);
    ApplyCsvSent(w, f.csvPath.value, f.defaultName.GetOr(Names.FallbackCsv), f.txtPath, w.files[f.csvPath.value], f.lineCount.GetOr(0));
  }

  /** A failure of the CSV send other than a timeout changes nothing: the
      session and the files are as before. */
  lemma SendCsvEscapes(w: World, raw: string, answers: seq<Delivery.Attempt>)
    requires Delivery.Run(Delivery.DocumentTries, answers) == Delivery.Raised
    ensures Handle(w, Message(raw), answers).world.files == w.files
    ensures Handle(w, Press(UseDefault), answers).world.files == w.files
  {
  }

  // ---------------------------------------------------------------------------
  // Documents
  // ---------------------------------------------------------------------------

  /** The upload gate: while a conversion waits for a file, an upload moves
      the session on exactly when its name ends in ".txt" in any case, it is
      at most 50 MiB, and the conversion succeeds; no file but the upload's
      own two is touched. */
  lemma UploadGate(w: World, d: Upload)
    requires w.user.mode == Some(Txt2Csv) && w.user.step == Some(WaitingFile)
    ensures var o := Handle(w, Attach(Some(d)), []);
            var name := Names.UploadName(d.fileName);
            && (o.world.user != w.user <==>
                  Names.AcceptsName(name) && Names.AcceptsSize(|d.content|)
                  && Converter.ConvertFile(d.content).result.Success?)
            && (!Names.AcceptsName(name) ==> o == Outcome(w, [Say(NotTxt)]))
            && forall p :: p != TxtPath(d) && p != CsvPath(d) ==>
                 (p in o.world.files <==> p in w.files) && (p in w.files ==> o.world.files[p] == w.files[p])
  {
  }

  /** A failed conversion leaves the session waiting for a file and removes
      the upload; a file without a valid line leaves a CSV file holding only
      the header behind. */
  lemma FailedConversionStays(w: World, d: Upload)
    requires w.user.mode == Some(Txt2Csv) && w.user.step == Some(WaitingFile)
    requires Names.AcceptsName(Names.UploadName(d.fileName)) && Names.AcceptsSize(|d.content|)
    requires Converter.ConvertFile(d.content).result.Failure?
    ensures var o := Handle(w, Attach(Some(d)), []);
            && o.world.user == w.user
            && TxtPath(d) !in o.world.files
            && o.out[2] == Say(ConversionFailed(Converter.ConvertFile(d.content).result.error))
            && (Converter.ConvertFile(d.content).result == Failure(Converter.NoValidData) ==>
                  CsvPath(d) in o.world.files && o.world.files[CsvPath(d)] == Csv.Write([Converter.Header]))
  {
    assert TxtPath(d)[0] != CsvPath(d)[0];
  }

  /** The world after a successful conversion. */
  lemma ConvertedWorld(w: World, d: Upload, name: string)
    requires Names.AcceptsSize(|d.content|) && Converter.ConvertFile(d.content).result.Success?
    ensures var c := Converter.ConvertFile(d.content);
            var count := Converter.RecordCount(c.csv.value);
            ConvertUpload(w, d, name).world ==
            World(w.user.(step := Some(AskRename),
                          fields := w.user.fields.(csvPath := Some(CsvPath(d)), txtPath := Some(TxtPath(d)),
                                                   defaultName := Some(Names.DefaultName(name)),
                                                   lineCount := Some(count))),
                  w.files[TxtPath(d) := d.content][CsvPath(d) := c.csv.value])
  {
  }

  /** After a successful conversion the session records both files, offers
      the upload's name with ".txt" replaced by ".csv", and counts exactly
      one record per converted line. */
  lemma ConvertedRecords(w: World, d: Upload)
    requires w.user.mode == Some(Txt2Csv) && w.user.step == Some(WaitingFile)
    requires Names.AcceptsName(Names.UploadName(d.fileName)) && Names.AcceptsSize(|d.content|)
    requires Converter.ConvertFile(d.content).result.Success?
    ensures var o := ConvertUpload(w, d, Names.UploadName(d.fileName));
            var c := Converter.ConvertFile(d.content);
            var f := o.world.user.fields;
            && o.world.user.step == Some(AskRename)
            && f.csvPath == Some(CsvPath(d)) && f.txtPath == Some(TxtPath(d))
            && o.world.files[CsvPath(d)] == Csv.Write(Converter.Records(c.result.value))
            && o.world.files[TxtPath(d)] == d.content
            && f.defaultName == Some(Names.DefaultName(Names.UploadName(d.fileName)))
            && f.lineCount == Some(|c.result.value|)
  {
    var name := Names.UploadName(d.fileName);
    ConvertedWorld(w, d, name);
    Converter.CountMatchesRows(d.content);
    assert TxtPath(d)[0] != CsvPath(d)[0];
  }
}
