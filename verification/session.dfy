/** The per-user conversation state (`context.user_data`): which dialogue
    is running, at which step, and the answers collected so far, together
    with what the bot says back. */
module Session {
  import opened Wrappers
  import opened Text
  import Generator
  import Converter

  datatype Mode = Single | Batch | Txt2Csv

  datatype Step =
    | FirstLetters | SecondNumbers | ThirdLetters | SeriesList
    | StartDigits | EndDigits | Confirm
    | WaitingFile | AskRename | WaitingRename

  /** The stored answers, each absent until its step has been passed. */
  datatype Fields = Fields(
    first: Option<string>,
    second: Option<string>,
    third: Option<string>,
    series: Option<seq<string>>,
    start: Option<string>,
    end: Option<string>,
    csvPath: Option<string>,
    txtPath: Option<string>,
    defaultName: Option<string>,
    lineCount: Option<int>)

  const NoFields: Fields := Fields(None, None, None, None, None, None, None, None, None, None)

  datatype UserData = UserData(mode: Option<Mode>, step: Option<Step>, fields: Fields)

  /** `user_data.clear()`. */
  const Cleared: UserData := UserData(None, None, NoFields)

  /** A fresh dialogue of the given mode at its first step. */
  function Begin(mode: Mode, step: Step): (u: UserData)
    ensures u.fields == NoFields && u.mode == Some(mode) && u.step == Some(step)
  {
    UserData(Some(mode), Some(step), NoFields)
  }

  // ---------------------------------------------------------------------------
  // What the bot says
  // ---------------------------------------------------------------------------

  datatype Notice =
    | Welcome(mode: Mode)
    | HelpText
    | Cancelled
    | Rejected(at: Step)                  // the answer does not fit: asked again
    | BadRange                            // start digits above end digits: asked again
    | Accepted(at: Step)                  // the answer is stored: next question
    | Summary(total: nat)                 // all answers in: confirm or cancel
    | HandlerError                        // an exception caught by the text handler
    | Crashed                             // an exception that escaped a handler, reported by the error handler
    | Generating
    | GenerationFailed(why: Generator.GenError)
    | GenerationCancelled
    | TooLarge                            // the document could not be sent
    | Done(count: int)                    // closing message after a delivery
    | NoFile
    | NotTxt
    | Downloading
    | FileTooBig
    | Converting
    | ConversionFailed(cause: Converter.ConvertError)
    | Converted(records: int, defaultName: string)
    | SendingDefault
    | RenamePrompt
    | InvalidName
    | FileNotFound
    | CsvCancelled

  datatype Output =
    | Say(notice: Notice)
    | Document(name: string, content: string)

  // ---------------------------------------------------------------------------
  // What holds of every reachable state
  // ---------------------------------------------------------------------------

  predicate UpperPair(s: string) {
    Generator.IsLetterPair(s) && NoLower(s)
  }

  /** Every stored answer passed its step's test, and the end digits are not
      below the start digits. */
  predicate FieldsValid(f: Fields) {
    && (f.first.Some? ==> UpperPair(f.first.value))
    && (f.second.Some? ==> Generator.IsDigitPair(f.second.value))
    && (f.third.Some? ==> UpperPair(f.third.value))
    && (f.series.Some? ==>
          f.series.value != [] && forall i :: 0 <= i < |f.series.value| ==> UpperPair(f.series.value[i]))
    && (f.start.Some? ==> Generator.IsDigitQuad(f.start.value))
    && (f.end.Some? ==>
          Generator.IsDigitQuad(f.end.value) && f.start.Some? && ParseNat(f.start.value) <= ParseNat(f.end.value))
  }

  /** How far a generation dialogue has got: the number of answers it
      holds at each step, or -1 for the steps of the conversion dialogue. */
  function Rank(step: Step): int {
    match step
    case FirstLetters => 0
    case SecondNumbers => 1
    case ThirdLetters => 2
    case SeriesList => 2
    case StartDigits => 3
    case EndDigits => 4
    case Confirm => 5
    case _ => -1
  }

  /** A generation dialogue runs in its own mode, asks only its own
      questions, and holds exactly the answers given so far. */
  predicate Progress(u: UserData) {
    u.step.Some? && Rank(u.step.value) >= 0 ==>
      var r := Rank(u.step.value);
      && (u.mode == Some(Single) || u.mode == Some(Batch))
      && (u.step.value == ThirdLetters ==> u.mode == Some(Single))
      && (u.step.value == SeriesList ==> u.mode == Some(Batch))
      && (u.fields.first.Some? <==> r >= 1)
      && (u.fields.second.Some? <==> r >= 2)
      && (u.fields.third.Some? <==> r >= 3 && u.mode == Some(Single))
      && (u.fields.series.Some? <==> r >= 3 && u.mode == Some(Batch))
      && (u.fields.start.Some? <==> r >= 4)
      && (u.fields.end.Some? <==> r >= 5)
  }

  /** The converted files are recorded only in a conversion dialogue, both
      together, and only once the upload is behind. */
  predicate FilesRecorded(u: UserData) {
    u.fields.csvPath.Some? ==>
      u.mode == Some(Txt2Csv) && u.fields.txtPath.Some? && u.step != Some(WaitingFile)
  }

  predicate Valid(u: UserData) {
    FieldsValid(u.fields) && Progress(u) && FilesRecorded(u)
  }

  /** At the confirmation step every answer the generator needs is there. */
  lemma ConfirmReady(u: UserData)
    requires Valid(u) && u.step == Some(Confirm)
    ensures u.mode == Some(Single) ==>
              u.fields.first.Some? && u.fields.second.Some? && u.fields.third.Some? &&
              u.fields.start.Some? && u.fields.end.Some?
    ensures u.mode == Some(Batch) ==>
              u.fields.first.Some? && u.fields.second.Some? && u.fields.series.Some? &&
              u.fields.start.Some? && u.fields.end.Some?
    ensures u.mode == Some(Single) || u.mode == Some(Batch)
  {
  }
}
