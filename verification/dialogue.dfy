/** The question-and-answer steps of the two generation dialogues
    (`handle_single_generation` and `handle_batch_generation`): each step
    tests the stripped answer, stores it and moves on, or asks again and
    changes nothing. */
module Dialogue {
  import opened Wrappers
  import opened Text
  import opened Session
  import Generator

  /** The state after an answer and the replies to it. */
  datatype Reply = Reply(user: UserData, notices: seq<Notice>)

  // ---------------------------------------------------------------------------
  // The series list of the batch dialogue
  // ---------------------------------------------------------------------------

  function StripEach(xs: seq<string>): (ys: seq<string>)
    ensures |ys| == |xs| && forall i :: 0 <= i < |xs| ==> ys[i] == Strip(xs[i])
  {
    seq(|xs|, i requires 0 <= i < |xs| => Strip(xs[i]))
  }

  /** The pieces of the upper-cased answer: split on ',' (each piece
      stripped) when there is a comma, else on whitespace. */
  function SeriesPieces(t: string): seq<string> {
    if Contains(t, ",") then StripEach(Split(t, ",", -1)) else SplitWords(t)
  }

  /** The stripped pieces that are two letters, in order. */
  function KeepPairs(pieces: seq<string>): (kept: seq<string>)
    decreases |pieces|
    ensures |kept| <= |pieces|
  {
    if pieces == [] then []
    else
      var s := Strip(pieces[0]);
      (if Generator.IsLetterPair(s) then [s] else []) + KeepPairs(pieces[1..])
  }

  /** The series list an answer gives. */
  function ParseSeriesList(text: string): seq<string> {
    KeepPairs(SeriesPieces(Upper(text)))
  }

  lemma {:induction false} KeepPairsSound(pieces: seq<string>, t: string)
    requires NoLower(t) && forall k :: 0 <= k < |pieces| ==> CharsIn(pieces[k], t)
    ensures forall i :: 0 <= i < |KeepPairs(pieces)| ==> UpperPair(KeepPairs(pieces)[i])
    decreases |pieces|
  {
    if pieces != [] {
      var s := Strip(pieces[0]);
      StripCharsIn(pieces[0]);
      CharsInTrans(s, pieces[0], t);
      CharsInNoLower(s, t);
      assert forall k :: 0 <= k < |pieces| - 1 ==> pieces[1..][k] == pieces[k + 1];
      KeepPairsSound(pieces[1..], t);
    }
  }

  /** Every series kept is two upper-case letters. */
  lemma SeriesListSound(text: string)
    ensures forall i :: 0 <= i < |ParseSeriesList(text)| ==> UpperPair(ParseSeriesList(text)[i])
  {
    var t := Upper(text);
    var pieces := SeriesPieces(t);
    if Contains(t, ",") {
      var parts := Split(t, ",", -1);
      SplitCharsIn(t, ",", -1);
      forall k | 0 <= k < |pieces| ensures CharsIn(pieces[k], t) {
        StripCharsIn(parts[k]);
        CharsInTrans(pieces[k], parts[k], t);
      }
    } else {
      SplitWordsCharsIn(t);
    }
    KeepPairsSound(pieces, t);
  }

  /** Pieces that are all two-letter series are all kept. */
  lemma {:induction false} KeepAllPairs(list: seq<string>)
    requires forall i :: 0 <= i < |list| ==> UpperPair(list[i])
    ensures KeepPairs(list) == list
    decreases |list|
  {
    if list != [] {
      StripNoSpace(list[0]);
      assert forall i :: 0 <= i < |list| - 1 ==> list[1..][i] == list[i + 1];
      KeepAllPairs(list[1..]);
      assert list == [list[0]] + list[1..];
    }
  }

  /** A list of two-letter series, joined by an upper-case separator,
      is already upper-case. */
  lemma UpperOfJoin(list: seq<string>, sep: string)
    requires NoLower(sep) && forall i :: 0 <= i < |list| ==> UpperPair(list[i])
    ensures Upper(Join(list, sep)) == Join(list, sep)
  {
    JoinNoLower(list, sep);
    UpperFixesNoLower(Join(list, sep));
  }

  /** Stripping leaves two-letter series alone. */
  lemma StripEachPairs(list: seq<string>)
    requires forall i :: 0 <= i < |list| ==> UpperPair(list[i])
    ensures StripEach(list) == list
  {
    forall i | 0 <= i < |list| ensures Strip(list[i]) == list[i] {
      StripNoSpace(list[i]);
    }
  }

  /** A text without `c` does not contain the one-character text `c`. */
  lemma LacksNotContains(s: string, c: char)
    requires Lacks(s, c)
    ensures !Contains(s, [c])
  {
    forall j: nat ensures !OccursAt(s, [c], j) {
      if j + 1 <= |s| {
        assert s[j..j + 1][0] == s[j];
      }
    }
  }

  /** A comma between two texts is found. */
  lemma CommaBetween(a: string, b: string)
    ensures Contains(a + "," + b, ",")
  {
    var s := a + "," + b;
    assert s[|a|..|a| + 1] == ",";
    assert OccursAt(s, ",", |a|);
  }

  /** Two or more series joined by commas split back at the commas. */
  lemma SplitCommas(list: seq<string>)
    requires |list| >= 2 && forall i :: 0 <= i < |list| ==> UpperPair(list[i])
    ensures Contains(Join(list, ","), ",")
    ensures Split(Join(list, ","), ",", -1) == list
  {
    assert Join(list, ",") == list[0] + "," + Join(list[1..], ",");
    CommaBetween(list[0], Join(list[1..], ","));
    PairsCommaFree(list);
    SplitJoin(list, ",", -1);
  }

  /** No series contains a comma, with or without the empty prefix of the
      separator after it. */
  lemma PairsCommaFree(list: seq<string>)
    requires forall i :: 0 <= i < |list| ==> UpperPair(list[i])
    ensures forall k :: 0 <= k < |list| ==> !Contains(list[k] + ","[..0], ",")
    ensures forall k :: 0 <= k < |list| ==> !Contains(list[k], ",")
  {
    forall k | 0 <= k < |list| ensures !Contains(list[k] + ","[..0], ",") && !Contains(list[k], ",") {
      assert list[k] + ","[..0] == list[k];
      assert Lacks(list[k], ',');
      LacksNotContains(list[k], ',');
    }
  }

  /** Series joined by blanks hold no comma. */
  lemma BlankJoinLacksComma(list: seq<string>)
    requires forall i :: 0 <= i < |list| ==> UpperPair(list[i])
    ensures !Contains(Join(list, " "), ",")
  {
    JoinLacks(list, " ", ',');
    LacksNotContains(Join(list, " "), ',');
  }

  /** Series typed with commas come back as typed. */
  lemma SeriesCommaRoundTrip(list: seq<string>)
    requires |list| >= 2 && forall i :: 0 <= i < |list| ==> UpperPair(list[i])
    ensures ParseSeriesList(Join(list, ",")) == list
  {
    UpperOfJoin(list, ",");
    SplitCommas(list);
    StripEachPairs(list);
    KeepAllPairs(list);
  }

  /** Series typed with blanks come back as typed. */
  lemma SeriesBlankRoundTrip(list: seq<string>)
    requires forall i :: 0 <= i < |list| ==> UpperPair(list[i])
    ensures ParseSeriesList(Join(list, " ")) == list
  {
    UpperOfJoin(list, " ");
    BlankJoinLacksComma(list);
    SplitWordsJoin(list);
    KeepAllPairs(list);
  }

  // ---------------------------------------------------------------------------
  // One answer
  // ---------------------------------------------------------------------------

  /** The test an answer must pass at each question. */
  predicate Fits(step: Step, text: string) {
    match step
    case FirstLetters => Generator.IsLetterPair(Upper(text))
    case ThirdLetters => Generator.IsLetterPair(Upper(text))
    case SecondNumbers => Generator.IsDigitPair(text)
    case SeriesList => ParseSeriesList(text) != []
    case StartDigits => Generator.IsDigitQuad(text)
    case EndDigits => Generator.IsDigitQuad(text)
    case _ => false
  }

  /** The question after `step` in a dialogue of `mode`. */
  function Next(mode: Mode, step: Step): Step {
    match step
    case FirstLetters => SecondNumbers
    case SecondNumbers => if mode == Single then ThirdLetters else SeriesList
    case ThirdLetters => StartDigits
    case SeriesList => StartDigits
    case StartDigits => EndDigits
    case _ => Confirm
  }

  /** Store `f` and move to the next question. */
  function Advance(u: UserData, mode: Mode, step: Step, f: Fields): Reply {
    Reply(u.(step := Some(Next(mode, step)), fields := f), [Accepted(step)])
  }

  /** An answer before the last question. */
  function Answer(u: UserData, mode: Mode, step: Step, text: string): Reply
    requires step != EndDigits
  {
    if !Fits(step, text) then Reply(u, [Rejected(step)])
    else match step
      case FirstLetters => Advance(u, mode, step, u.fields.(first := Some(Upper(text))))
      case ThirdLetters => Advance(u, mode, step, u.fields.(third := Some(Upper(text))))
      case SecondNumbers => Advance(u, mode, step, u.fields.(second := Some(text)))
      case SeriesList => Advance(u, mode, step, u.fields.(series := Some(ParseSeriesList(text))))
      case StartDigits => Advance(u, mode, step, u.fields.(start := Some(text)))
      case _ => Reply(u, [])
  }

  /** The last answer: the end digits, checked against the start digits.
      A start that is missing or not a number makes `int()` raise. */
  function AnswerEnd(u: UserData, mode: Mode, text: string): Reply {
    if !Fits(EndDigits, text) then Reply(u, [Rejected(EndDigits)])
    else match u.fields.start
      case None => Reply(u, [HandlerError])
      case Some(start) =>
        if !IsDigits(start) then Reply(u, [HandlerError])
        else if ParseNat(start) > ParseNat(text) then Reply(u, [BadRange])
        else
          var count := ParseNat(text) - ParseNat(start) + 1;
          var total := if mode == Single then count else count * |u.fields.series.GetOr([])|;
          Reply(u.(step := Some(Confirm), fields := u.fields.(end := Some(text))), [Summary(total)])
  }

  /** A stripped text message in a dialogue of `mode`. */
  function OnAnswer(u: UserData, mode: Mode, text: string): Reply {
    match u.step
    case Some(FirstLetters) => Answer(u, mode, FirstLetters, text)
    case Some(SecondNumbers) => Answer(u, mode, SecondNumbers, text)
    case Some(ThirdLetters) => if mode == Single then Answer(u, mode, ThirdLetters, text) else Reply(u, [])
    case Some(SeriesList) => if mode == Batch then Answer(u, mode, SeriesList, text) else Reply(u, [])
    case Some(StartDigits) => Answer(u, mode, StartDigits, text)
    case Some(EndDigits) => AnswerEnd(u, mode, text)
    case _ => Reply(u, [])
  }

  // ---------------------------------------------------------------------------
  // Properties of an answer
  // ---------------------------------------------------------------------------

  /** The questions a dialogue of `mode` asks. */
  predicate Asks(mode: Mode, step: Step) {
    match step
    case FirstLetters => true
    case SecondNumbers => true
    case ThirdLetters => mode == Single
    case SeriesList => mode == Batch
    case StartDigits => true
    case EndDigits => true
    case _ => false
  }

  /** An answer that fails its question's test changes nothing and is met by
      the question again. */
  lemma RejectedAnswer(u: UserData, mode: Mode, text: string)
    requires u.step.Some? && Asks(mode, u.step.value) && !Fits(u.step.value, text)
    ensures OnAnswer(u, mode, text) == Reply(u, [Rejected(u.step.value)])
  {
  }

  /** An answer that passes its test, before the last question, is stored
      (normalised) and the dialogue moves to the next question; nothing
      else changes. */
  lemma AcceptedAnswer(u: UserData, mode: Mode, text: string)
    requires u.step.Some? && Asks(mode, u.step.value) && u.step.value != EndDigits
    requires Fits(u.step.value, text)
    ensures var r := OnAnswer(u, mode, text);
            && r.notices == [Accepted(u.step.value)]
            && r.user.mode == u.mode
            && r.user.step == Some(Next(mode, u.step.value))
            && r.user.fields == match u.step.value
                 case FirstLetters => u.fields.(first := Some(Upper(text)))
                 case ThirdLetters => u.fields.(third := Some(Upper(text)))
                 case SecondNumbers => u.fields.(second := Some(text))
                 case SeriesList => u.fields.(series := Some(ParseSeriesList(text)))
                 case _ => u.fields.(start := Some(text))
  {
  }

  /** At the last question, with valid stored answers: a range running
      backwards is refused and changes nothing; otherwise the end digits are
      stored, the dialogue waits for confirmation, and the summary gives the
      number of identifiers to come. */
  lemma LastAnswer(u: UserData, mode: Mode, text: string)
    requires u.step == Some(EndDigits) && u.fields.start.Some?
    requires Generator.IsDigitQuad(u.fields.start.value) && Generator.IsDigitQuad(text)
    ensures var start := ParseNat(u.fields.start.value);
            var end := ParseNat(text);
            var r := OnAnswer(u, mode, text);
            && (start > end ==> r == Reply(u, [BadRange]))
            && (start <= end ==>
                  && r.user == u.(step := Some(Confirm), fields := u.fields.(end := Some(text)))
                  && r.notices == [Summary(if mode == Single then end - start + 1
                                           else (end - start + 1) * |u.fields.series.GetOr([])|)])
  {
  }

  /** The last answer keeps the session valid. */
  lemma EndKeepsValid(u: UserData, mode: Mode, text: string)
    requires Valid(u) && u.mode == Some(mode) && u.step == Some(EndDigits)
    ensures Valid(AnswerEnd(u, mode, text).user)
  {
  }

  /** An earlier answer keeps the session valid. */
  lemma EarlyKeepsValid(u: UserData, mode: Mode, step: Step, text: string)
    requires Valid(u) && u.mode == Some(mode) && u.step == Some(step)
    requires Asks(mode, step) && step != EndDigits
    ensures Valid(Answer(u, mode, step, text).user)
  {
    if Fits(step, text) {
      match step
      case SeriesList => SeriesListSound(text);
      case FirstLetters => UpperKeepsClasses(text);
      case ThirdLetters => UpperKeepsClasses(text);
      case _ =>
    }
  }

  /** Answers keep the session valid: every stored answer passed its test,
      and the dialogue holds exactly the answers given so far. */
  lemma AnswerKeepsValid(u: UserData, mode: Mode, text: string)
    requires Valid(u) && u.mode == Some(mode)
    ensures Valid(OnAnswer(u, mode, text).user)
    ensures OnAnswer(u, mode, text).user.mode == u.mode
    ensures OnAnswer(u, mode, text).user.fields.csvPath == u.fields.csvPath
  {
    if u.step.Some? {
      var step := u.step.value;
      if step == EndDigits {
        EndKeepsValid(u, mode, text);
      } else if Asks(mode, step) {
        EarlyKeepsValid(u, mode, step, text);
      }
    }
  }
}
