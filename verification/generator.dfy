/** Vehicle-number generation (bot.py `generate_vehicle_numbers` and
    `generate_batch_vehicle_numbers`).  An identifier is a two-letter
    prefix, a two-digit code, a two-letter series and a four-digit serial,
    e.g. `AB12CD0001`.  Writing the text file is modelled as returning its
    name and its lines; on an error no file exists. */
module Generator {
  import opened Wrappers
  import opened Text

  /** Why generation refuses, in the order the program checks. */
  datatype GenError =
    | BadFirstPart                 // prefix is not two letters
    | BadSecondPart                // code is not two digits
    | BadSeries                    // single series is not two letters
    | BadStart                     // start is not four digits
    | BadEnd                       // end is not four digits
    | NoSeries                     // batch series list is empty
    | BadRange                     // start > end
    | InvalidSeries(series: string) // a batch series (normalised) is not two letters

  /** The field shapes of the collecting steps. */
  predicate IsLetterPair(s: string) { |s| == 2 && IsAlpha(s) }
  predicate IsDigitPair(s: string) { |s| == 2 && IsDigits(s) }
  predicate IsDigitQuad(s: string) { |s| == 4 && IsDigits(s) }

  /** The generated text file: its name and its lines, one identifier each. */
  datatype Generated = Generated(fileName: string, numbers: seq<string>)

  /** Upper-case letters at 0-1 and 4-5, digits at 2-3 and 6-9. */
  predicate IsIdentifier(id: string) {
    && |id| == 10
    && IsUpper(id[0]) && IsUpper(id[1])
    && IsDigit(id[2]) && IsDigit(id[3])
    && IsUpper(id[4]) && IsUpper(id[5])
    && IsDigit(id[6]) && IsDigit(id[7]) && IsDigit(id[8]) && IsDigit(id[9])
  }

  /** The serial an identifier ends with, as a number. */
  function SerialOf(id: string): nat
    requires IsIdentifier(id)
  {
    ParseNat(id[6..])
  }

  /** The six leading characters every identifier of one block shares. */
  function Stem(prefix: string, code: string, series: string): string {
    Upper(prefix) + code + Upper(series)
  }

  /** A stem of upper-case letter pair, digit pair, upper-case letter pair. */
  predicate IsStem(stem: string) {
    && |stem| == 6
    && IsUpper(stem[0]) && IsUpper(stem[1])
    && IsDigit(stem[2]) && IsDigit(stem[3])
    && IsUpper(stem[4]) && IsUpper(stem[5])
  }

  lemma StemShape(prefix: string, code: string, series: string)
    requires IsLetterPair(prefix) && IsDigitPair(code) && IsLetterPair(series)
    ensures IsStem(Stem(prefix, code, series))
  {
    var s := Stem(prefix, code, series);
    assert s[0] == UpperChar(prefix[0]) && s[1] == UpperChar(prefix[1]);
    assert s[2] == code[0] && s[3] == code[1];
    assert s[4] == UpperChar(series[0]) && s[5] == UpperChar(series[1]);
  }

  /** Stem followed by a padded serial is an identifier carrying that serial. */
  lemma IdentifierShape(stem: string, n: nat)
    requires IsStem(stem) && n < 10000
    ensures IsIdentifier(stem + Pad4(n))
    ensures (stem + Pad4(n))[..6] == stem && SerialOf(stem + Pad4(n)) == n
  {
    var id := stem + Pad4(n);
    assert id[6..] == Pad4(n);
    ParsePad4(n);
  }

  /** The `range(lo, hi + 1)` loop: one identifier per serial, in order. */
  function Block(stem: string, lo: nat, hi: nat): (r: seq<string>)
    requires hi < 10000
    decreases hi + 1 - lo
    ensures |r| == if lo <= hi then hi - lo + 1 else 0
    ensures forall k :: 0 <= k < |r| ==> r[k] == stem + Pad4(lo + k)
  {
    if lo > hi then [] else [stem + Pad4(lo)] + Block(stem, lo + 1, hi)
  }

  /** The identifiers of a block are well-shaped, share the stem and carry
      consecutive serials starting at `lo`. */
  lemma BlockShape(stem: string, lo: nat, hi: nat)
    requires IsStem(stem) && hi < 10000
    ensures forall k :: 0 <= k < |Block(stem, lo, hi)| ==>
              && IsIdentifier(Block(stem, lo, hi)[k])
              && Block(stem, lo, hi)[k][..6] == stem
              && SerialOf(Block(stem, lo, hi)[k]) == lo + k
  {
    var b := Block(stem, lo, hi);
    forall k | 0 <= k < |b|
      ensures IsIdentifier(b[k]) && b[k][..6] == stem && SerialOf(b[k]) == lo + k
    {
      IdentifierShape(stem, lo + k);
    }
  }

  /** Everything `generate_vehicle_numbers` checks before it writes. */
  predicate SingleValid(prefix: string, code: string, series: string, start: string, end: string) {
    && IsLetterPair(prefix) && IsDigitPair(code) && IsLetterPair(series)
    && IsDigitQuad(start) && IsDigitQuad(end)
    && ParseNat(start) <= ParseNat(end)
  }

  /** `generate_vehicle_numbers(first_letters, second_numbers, third_letters,
      start_digits, end_digits)`. */
  function GenerateSingle(prefix: string, code: string, series: string, start: string, end: string)
    : (r: Result<Generated, GenError>)
    ensures r.Success? <==> SingleValid(prefix, code, series, start, end)
    // the first failing check, in the program's order, names the error
    ensures r == Failure(BadFirstPart) <==> !IsLetterPair(prefix)
    ensures r == Failure(BadSecondPart) <==> IsLetterPair(prefix) && !IsDigitPair(code)
    ensures r == Failure(BadSeries) <==>
              IsLetterPair(prefix) && IsDigitPair(code) && !IsLetterPair(series)
    ensures r == Failure(BadStart) <==>
              IsLetterPair(prefix) && IsDigitPair(code) && IsLetterPair(series) && !IsDigitQuad(start)
    ensures r == Failure(BadEnd) <==>
              IsLetterPair(prefix) && IsDigitPair(code) && IsLetterPair(series)
              && IsDigitQuad(start) && !IsDigitQuad(end)
    ensures r == Failure(BadRange) <==>
              IsLetterPair(prefix) && IsDigitPair(code) && IsLetterPair(series)
              && IsDigitQuad(start) && IsDigitQuad(end) && ParseNat(start) > ParseNat(end)
    // on success: end - start + 1 identifiers with consecutive serials
    ensures r.Success? ==>
              && |r.value.numbers| == ParseNat(end) - ParseNat(start) + 1
              && r.value.fileName == "vehicle_numbers_" + Stem(prefix, code, series) + ".txt"
              && forall k :: 0 <= k < |r.value.numbers| ==>
                   && IsIdentifier(r.value.numbers[k])
                   && r.value.numbers[k][..6] == Stem(prefix, code, series)
                   && SerialOf(r.value.numbers[k]) == ParseNat(start) + k
  {
    if !IsLetterPair(prefix) then Failure(BadFirstPart)
    else if !IsDigitPair(code) then Failure(BadSecondPart)
    else if !IsLetterPair(series) then Failure(BadSeries)
    else if !IsDigitQuad(start) then Failure(BadStart)
    else if !IsDigitQuad(end) then Failure(BadEnd)
    else
      var lo, hi := ParseNat(start), ParseNat(end);
      if lo > hi then Failure(BadRange)
      else
        var stem := Stem(prefix, code, series);
        ParseNat4(end);
        StemShape(prefix, code, series);
        BlockShape(stem, lo, hi);
        Success(Generated("vehicle_numbers_" + stem + ".txt", Block(stem, lo, hi)))
  }

  /** Serials strictly increase along a successful single-series result. */
  lemma SingleSerialsIncrease(prefix: string, code: string, series: string, start: string, end: string,
                              i: nat, j: nat)
    requires GenerateSingle(prefix, code, series, start, end).Success?
    requires i < j < |GenerateSingle(prefix, code, series, start, end).value.numbers|
    ensures var ns := GenerateSingle(prefix, code, series, start, end).value.numbers;
            SerialOf(ns[i]) < SerialOf(ns[j])
  {
  }

  // ---------------------------------------------------------------------------
  // Batch
  // ---------------------------------------------------------------------------

  /** `series.strip().upper()`, as the batch loop normalises each entry. */
  function NormalizeSeries(s: string): string {
    Upper(Strip(s))
  }

  /** Every entry of the list, normalised. */
  function Normalized(list: seq<string>): (names: seq<string>)
    decreases |list|
    ensures |names| == |list|
  {
    if list == [] then [] else [NormalizeSeries(list[0])] + Normalized(list[1..])
  }

  /** Entry `i` of the normalised list is entry `i` of the list, normalised. */
  lemma {:induction false} NormalizedAt(list: seq<string>, i: nat)
    requires i < |list|
    ensures Normalized(list)[i] == NormalizeSeries(list[i])
    decreases i
  {
    if i > 0 {
      NormalizedAt(list[1..], i - 1);
    }
  }

  /** Every name is a letter pair. */
  predicate AllPairs(names: seq<string>) {
    forall i :: 0 <= i < |names| ==> IsLetterPair(names[i])
  }

  /** The position of the first name that is not a letter pair. */
  function FirstNonPair(names: seq<string>): (r: Option<nat>)
    decreases |names|
    ensures r.None? <==> AllPairs(names)
    ensures r.Some? ==> r.value < |names| && !IsLetterPair(names[r.value])
    ensures r.Some? ==> AllPairs(names[..r.value])
  {
    if names == [] then None
    else if !IsLetterPair(names[0]) then Some(0)
    else
      var tail := names[1..];
      match FirstNonPair(tail)
      case None =>
        assert forall i :: 1 <= i < |names| ==> names[i] == tail[i - 1];
        None
      case Some(i) =>
        assert forall j :: 1 <= j < |names| ==> names[j] == tail[j - 1];
        assert names[..i + 1] == [names[0]] + tail[..i];
        Some(i + 1)
  }

  /** `i * n` by repeated addition, which keeps the layout proof linear. */
  function Times(i: nat, n: nat): nat {
    if i == 0 then 0 else n + Times(i - 1, n)
  }

  lemma {:induction false} TimesIsProduct(i: nat, n: nat)
    ensures Times(i, n) == i * n
  {
    if i > 0 {
      TimesIsProduct(i - 1, n);
    }
  }

  /** The batch loop's output: each series' block, in list order. */
  function BatchNumbers(head: string, names: seq<string>, lo: nat, hi: nat): (r: seq<string>)
    requires hi < 10000 && lo <= hi
    decreases |names|
    ensures |r| == Times(|names|, hi - lo + 1)
  {
    if names == [] then []
    else Block(head + names[0], lo, hi) + BatchNumbers(head, names[1..], lo, hi)
  }

  /** Everything `generate_batch_vehicle_numbers` checks before it writes. */
  predicate BatchValid(prefix: string, code: string, list: seq<string>, start: string, end: string) {
    && IsLetterPair(prefix) && IsDigitPair(code)
    && IsDigitQuad(start) && IsDigitQuad(end)
    && |list| > 0
    && ParseNat(start) <= ParseNat(end)
    && AllPairs(Normalized(list))
  }

  /** `generate_batch_vehicle_numbers(first_letters, second_numbers,
      series_list, start_digits, end_digits)`. */
  function GenerateBatch(prefix: string, code: string, list: seq<string>, start: string, end: string)
    : (r: Result<Generated, GenError>)
    ensures r.Success? <==> BatchValid(prefix, code, list, start, end)
    // the batch order of checks: prefix, code, start, end, empty list, range, series
    ensures r == Failure(BadFirstPart) <==> !IsLetterPair(prefix)
    ensures r == Failure(BadSecondPart) <==> IsLetterPair(prefix) && !IsDigitPair(code)
    ensures r == Failure(BadStart) <==> IsLetterPair(prefix) && IsDigitPair(code) && !IsDigitQuad(start)
    ensures r == Failure(BadEnd) <==>
              IsLetterPair(prefix) && IsDigitPair(code) && IsDigitQuad(start) && !IsDigitQuad(end)
    ensures r == Failure(NoSeries) <==>
              IsLetterPair(prefix) && IsDigitPair(code) && IsDigitQuad(start) && IsDigitQuad(end)
              && list == []
    ensures r == Failure(BadRange) <==>
              IsLetterPair(prefix) && IsDigitPair(code) && IsDigitQuad(start) && IsDigitQuad(end)
              && list != [] && ParseNat(start) > ParseNat(end)
    ensures r.Failure? && r.error.InvalidSeries? <==>
              IsLetterPair(prefix) && IsDigitPair(code) && IsDigitQuad(start) && IsDigitQuad(end)
              && list != [] && ParseNat(start) <= ParseNat(end) && !AllPairs(Normalized(list))
    ensures r.Success? ==>
              && |r.value.numbers| == Times(|list|, ParseNat(end) - ParseNat(start) + 1)
              && r.value.fileName == "vehicle_numbers_batch_" + Upper(prefix) + code + ".txt"
  {
    if !IsLetterPair(prefix) then Failure(BadFirstPart)
    else if !IsDigitPair(code) then Failure(BadSecondPart)
    else if !IsDigitQuad(start) then Failure(BadStart)
    else if !IsDigitQuad(end) then Failure(BadEnd)
    else if list == [] then Failure(NoSeries)
    else
      var lo, hi := ParseNat(start), ParseNat(end);
      if lo > hi then Failure(BadRange)
      else
        var names := Normalized(list);
        match FirstNonPair(names)
        case Some(i) =>
          Failure(InvalidSeries(names[i]))
        case None =>
          ParseNat4(end);
          Success(Generated("vehicle_numbers_batch_" + Upper(prefix) + code + ".txt",
                            BatchNumbers(Upper(prefix) + code, names, lo, hi)))
  }

  /** A rejected series is reported in its normalised form, and it is the
      first entry of the list that is not two letters once normalised. */
  lemma BatchReportsFirstInvalid(prefix: string, code: string, list: seq<string>, start: string, end: string,
                                 i: nat)
    requires IsLetterPair(prefix) && IsDigitPair(code) && IsDigitQuad(start) && IsDigitQuad(end)
    requires ParseNat(start) <= ParseNat(end)
    requires i < |list| && !IsLetterPair(NormalizeSeries(list[i]))
    requires forall j :: 0 <= j < i ==> IsLetterPair(NormalizeSeries(list[j]))
    ensures GenerateBatch(prefix, code, list, start, end) == Failure(InvalidSeries(NormalizeSeries(list[i])))
  {
    var names := Normalized(list);
    forall j | 0 <= j <= i ensures names[j] == NormalizeSeries(list[j]) {
      NormalizedAt(list, j);
    }
    FirstNonPairIsFirst(names, i);
  }

  /** FirstNonPair finds the first offending position. */
  lemma {:induction false} FirstNonPairIsFirst(names: seq<string>, i: nat)
    requires i < |names| && !IsLetterPair(names[i])
    requires forall j :: 0 <= j < i ==> IsLetterPair(names[j])
    ensures FirstNonPair(names) == Some(i)
    decreases i
  {
    if i > 0 {
      var tail := names[1..];
      assert forall j :: 0 <= j < i - 1 ==> tail[j] == names[j + 1];
      FirstNonPairIsFirst(tail, i - 1);
    }
  }

  /** Concatenation of a sequence of blocks. */
  function Concat(blocks: seq<seq<string>>): seq<string>
    decreases |blocks|
  {
    if blocks == [] then [] else blocks[0] + Concat(blocks[1..])
  }

  /** The single-series result for each normalised series of a batch. */
  function SingleBlocks(prefix: string, code: string, names: seq<string>, start: string, end: string)
    : seq<seq<string>>
    requires IsLetterPair(prefix) && IsDigitPair(code) && AllPairs(names)
    requires IsDigitQuad(start) && IsDigitQuad(end) && ParseNat(start) <= ParseNat(end)
  {
    seq(|names|, i requires 0 <= i < |names| =>
      GenerateSingle(prefix, code, names[i], start, end).value.numbers)
  }

  /** A successful batch is exactly the single-series results for its
      normalised series, concatenated in list order. */
  lemma BatchIsConcatOfSingles(prefix: string, code: string, list: seq<string>, start: string, end: string)
    requires GenerateBatch(prefix, code, list, start, end).Success?
    ensures GenerateBatch(prefix, code, list, start, end).value.numbers
            == Concat(SingleBlocks(prefix, code, Normalized(list), start, end))
  {
    ParseNat4(end);
    NormalizedAllUpper(list);
    BatchConcat(prefix, code, Normalized(list), start, end, ParseNat(start), ParseNat(end));
  }

  /** No name has a lower-case letter (true of every normalised list). */
  predicate AllUpper(names: seq<string>) {
    forall i :: 0 <= i < |names| ==> NoLower(names[i])
  }

  lemma NormalizedAllUpper(list: seq<string>)
    ensures AllUpper(Normalized(list))
  {
    forall i | 0 <= i < |list| ensures NoLower(Normalized(list)[i]) {
      NormalizedAt(list, i);
    }
  }

  lemma {:induction false} BatchConcat(prefix: string, code: string, names: seq<string>,
                                       start: string, end: string, lo: nat, hi: nat)
    requires IsLetterPair(prefix) && IsDigitPair(code) && AllPairs(names) && AllUpper(names)
    requires IsDigitQuad(start) && IsDigitQuad(end)
    requires lo == ParseNat(start) && hi == ParseNat(end) && lo <= hi < 10000
    ensures BatchNumbers(Upper(prefix) + code, names, lo, hi)
            == Concat(SingleBlocks(prefix, code, names, start, end))
    decreases |names|
  {
    var blocks := SingleBlocks(prefix, code, names, start, end);
    if names != [] {
      var n0 := names[0];
      UpperFixesNoLower(n0);
      assert blocks[0] == Block(Upper(prefix) + code + n0, lo, hi);
      var tail := names[1..];
      assert AllPairs(tail) && AllUpper(tail) by {
        assert forall i :: 0 <= i < |tail| ==> tail[i] == names[i + 1];
      }
      BatchConcat(prefix, code, tail, start, end, lo, hi);
      assert blocks[1..] == SingleBlocks(prefix, code, tail, start, end);
    }
  }

  /** Position `i * n + k` of the batch output holds name `i` with serial `lo + k`. */
  lemma {:induction false} BatchLayout(head: string, names: seq<string>, lo: nat, hi: nat, i: nat, k: nat)
    requires lo <= hi < 10000
    requires i < |names| && k <= hi - lo
    ensures Times(i, hi - lo + 1) + k < |BatchNumbers(head, names, lo, hi)|
    ensures BatchNumbers(head, names, lo, hi)[Times(i, hi - lo + 1) + k] == head + names[i] + Pad4(lo + k)
    decreases i
  {
    var n := hi - lo + 1;
    var b := Block(head + names[0], lo, hi);
    var rest := BatchNumbers(head, names[1..], lo, hi);
    assert BatchNumbers(head, names, lo, hi) == b + rest;
    if i > 0 {
      BatchLayout(head, names[1..], lo, hi, i - 1, k);
    }
  }

  /** Every entry of a batch is an identifier when every name completes
      the head to a stem. */
  lemma {:induction false} BatchNumbersShape(head: string, names: seq<string>, lo: nat, hi: nat)
    requires lo <= hi < 10000
    requires forall i :: 0 <= i < |names| ==> IsStem(head + names[i])
    ensures forall k :: 0 <= k < |BatchNumbers(head, names, lo, hi)| ==>
              IsIdentifier(BatchNumbers(head, names, lo, hi)[k])
    decreases |names|
  {
    if names != [] {
      var b := Block(head + names[0], lo, hi);
      var tail := names[1..];
      BlockShape(head + names[0], lo, hi);
      assert forall i :: 0 <= i < |tail| ==> tail[i] == names[i + 1];
      BatchNumbersShape(head, tail, lo, hi);
      assert BatchNumbers(head, names, lo, hi) == b + BatchNumbers(head, tail, lo, hi);
    }
  }

  /** Every number a successful batch writes is an identifier. */
  lemma BatchIdentifiers(prefix: string, code: string, list: seq<string>, start: string, end: string)
    requires GenerateBatch(prefix, code, list, start, end).Success?
    ensures forall k :: 0 <= k < |GenerateBatch(prefix, code, list, start, end).value.numbers| ==>
              IsIdentifier(GenerateBatch(prefix, code, list, start, end).value.numbers[k])
  {
    var names := Normalized(list);
    NormalizedAllUpper(list);
    ParseNat4(end);
    forall i | 0 <= i < |names| ensures IsStem(Upper(prefix) + code + names[i]) {
      StemShape(prefix, code, names[i]);
      UpperFixesNoLower(names[i]);
    }
    BatchNumbersShape(Upper(prefix) + code, names, ParseNat(start), ParseNat(end));
  }

  /** A block of three serials from 0001. */
  lemma BlockOneToThree(stem: string)
    ensures Block(stem, 1, 3) == [stem + "0001", stem + "0002", stem + "0003"]
  {
    assert Pad4(1) == "0001" && Pad4(2) == "0002" && Pad4(3) == "0003";
  }

  /** Series that are already upper-case and unpadded are unchanged by normalisation. */
  lemma NormalizeFixes(s: string)
    requires NoSpace(s) && NoLower(s)
    ensures NormalizeSeries(s) == s
  {
    StripNoSpace(s);
    UpperFixesNoLower(s);
  }

  /** The batch loop on two series, CD and EF, over serials 0001..0003
      under the head AB12. */
  lemma BatchNumbersExample()
    ensures BatchNumbers("AB12", ["CD", "EF"], 1, 3)
            == ["AB12CD0001", "AB12CD0002", "AB12CD0003", "AB12EF0001", "AB12EF0002", "AB12EF0003"]
  {
    var list := ["CD", "EF"];
    BlockOneToThree("AB12CD");
    BlockOneToThree("AB12EF");
    assert "AB12" + "CD" == "AB12CD" && "AB12" + "EF" == "AB12EF";
    var tail := BatchNumbers("AB12", ["EF"], 1, 3);
    assert tail == Block("AB12EF", 1, 3) by {
      assert ["EF"][1..] == [];
    }
    assert BatchNumbers("AB12", list, 1, 3) == Block("AB12CD", 1, 3) + tail by {
      assert list[1..] == ["EF"];
    }
    assert "AB12CD" + "0001" == "AB12CD0001" && "AB12CD" + "0002" == "AB12CD0002"
           && "AB12CD" + "0003" == "AB12CD0003";
    assert "AB12EF" + "0001" == "AB12EF0001" && "AB12EF" + "0002" == "AB12EF0002"
           && "AB12EF" + "0003" == "AB12EF0003";
  }
}
