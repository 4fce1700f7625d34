/** The run loop of `App.runFifaDataFlow`: rows 1 to 10 are extracted in
    order, each record offered for confirmation, appended ones collected,
    and the batch handed to the writer once at the end. The browser is
    replaced by two oracles: what extracting a row yields, and what the
    confirmation bridge observes for the k-th offered record. */
module App {
  import opened Wrappers
  import opened JavaStrings
  import opened JavaIntegers
  import opened FifaFinalResult
  import XPath = FifaDataXPath
  import opened WebUIAutomator
  import Writer = GoogleSheetsWriter

  const NumIterationsToAttempt: int := 10

  /** The container whose visibility is checked before any extraction. */
  const TableBaseCheckXPath: string := "//*[@id=\"mw-content-text\"]/div[1]/table[4]"

  /** Every cell locator points inside the container the run checks first. */
  lemma LocatorsUnderCheckedTable(f: XPath.Field, rowIndex: Int32)
    ensures StartsWith(XPath.Pattern(f), TableBaseCheckXPath)
    ensures StartsWith(XPath.GetFormattedXPath(f, rowIndex), TableBaseCheckXPath)
  {
    assert TableBaseCheckXPath == XPath.TableContainer;
    XPath.PatternInTable(f);
    XPath.FormattedXPathInTable(f, rowIndex);
  }

  /** What reading one row's four cells yields: the raw texts of the cells
      the four locators find for that row, or a failure (an element not
      visible in time, or any other exception while extracting). */
  datatype Extraction =
    | ExtractionFailed
    | Texts(yearText: string, winnerText: string, scoreText: string, runnerUpText: string)

  /** The year: every non-digit removed, then `Integer.parseInt`. */
  function ParseYear(yearText: string): (r: Option<Int32>)
    ensures r.Some? <==> KeepDigits(yearText) != [] && DigitsValue(KeepDigits(yearText)) <= MaxInt32
    ensures r.Some? ==> r.value == DigitsValue(KeepDigits(yearText))
  {
    ParseIntOfDigits(KeepDigits(yearText));
    ParseInt(KeepDigits(yearText))
  }

  /** A footnote marker after the year is dropped. */
  lemma ParseYearFootnote()
    ensures ParseYear("1930*") == Some(1930)
  {
    assert "1930*" == "1930" + "*";
    KeepDigitsConcat("1930", "*");
    assert KeepDigits("*") == [];
    assert KeepDigits("1930*") == "1930";
    DigitsOf1930();
  }

  /** Digit groups separated by a blank are joined. */
  lemma ParseYearSplitDigits()
    ensures ParseYear("19 30") == Some(1930)
  {
    assert "19 30" == "19" + " " + "30";
    KeepDigitsConcat("19" + " ", "30");
    KeepDigitsConcat("19", " ");
    assert KeepDigits(" ") == [];
    assert "19" + "30" == "1930";
    assert KeepDigits("19 30") == "1930";
    DigitsOf1930();
  }

  /** A year text without digits does not parse, so its row is skipped. */
  lemma ParseYearNoDigits(s: string)
    requires forall k :: 0 <= k < |s| ==> !IsDigit(s[k])
    ensures ParseYear(s).None?
  {
    KeepDigitsOfNonDigits(s);
  }

  lemma DigitsOf1930()
    ensures DigitsValue("1930") == 1930
  {
    assert "1930"[..3] == "193";
    assert "193"[..2] == "19";
    assert "19"[..1] == "1";
    assert "1"[..0] == "";
  }

  /** The score: trimmed, then every newline turned into a space. */
  function CleanScore(raw: string): (r: string)
    ensures '\n' !in r
    ensures |r| == |Trim(raw)|
    ensures forall k :: 0 <= k < |r| ==> r[k] == (if Trim(raw)[k] == '\n' then ' ' else Trim(raw)[k])
    ensures r == [] <==> AllBlank(raw)
  {
    TrimEmptyIffAllBlank(raw);
    ReplaceCharPointwise(Trim(raw), '\n', " ");
    ReplaceChar(Trim(raw), '\n', " ")
  }

  /** Building a record from one row: the texts are trimmed (the score
      also loses its newlines) and checked for emptiness before the year is
      parsed. */
  function ExtractRow(e: Extraction): (r: Option<FinalResult>)
    ensures e.ExtractionFailed? ==> r.None?
  {
    match e
    case ExtractionFailed => None
    case Texts(y, w, s, ru) =>
      var yearText, winner, score, runnerUp := Trim(y), Trim(w), CleanScore(s), Trim(ru);
      if yearText == [] || winner == [] || score == [] || runnerUp == [] then None
      else
        var year := ParseYear(yearText);
        if year.None? then None
        else Some(FinalResult(year.value, winner, score, runnerUp))
  }

  /** A row yields a record exactly when none of its four texts is blank
      and its year has between one digit and a value of at most
      `MaxInt32`. The record's texts are trimmed and non-empty, the score
      holds no newline, and the year is the value of the text's digits. */
  lemma ExtractRowSpec(e: Extraction)
    requires e.Texts?
    ensures ExtractRow(e).Some? <==>
      && !AllBlank(e.yearText) && !AllBlank(e.winnerText)
      && !AllBlank(e.scoreText) && !AllBlank(e.runnerUpText)
      && KeepDigits(e.yearText) != [] && DigitsValue(KeepDigits(e.yearText)) <= MaxInt32
    ensures ExtractRow(e).Some? ==>
      var r := ExtractRow(e).value;
      && r.winner != [] && IsTrimmed(r.winner) && r.winner == Trim(e.winnerText)
      && r.runnerUp != [] && IsTrimmed(r.runnerUp) && r.runnerUp == Trim(e.runnerUpText)
      && r.score != [] && '\n' !in r.score && r.score == CleanScore(e.scoreText)
      && r.year == DigitsValue(KeepDigits(e.yearText))
  {
    TrimEmptyIffAllBlank(e.yearText);
    TrimEmptyIffAllBlank(e.winnerText);
    TrimEmptyIffAllBlank(e.runnerUpText);
    KeepDigitsOfTrim(e.yearText);
  }

  /** Trimming never removes a digit, so it does not change the year. */
  lemma KeepDigitsOfTrim(s: string)
    ensures KeepDigits(Trim(s)) == KeepDigits(s)
  {
    var pre, post := TrimSplits(s);
    KeepDigitsConcat(pre + Trim(s), post);
    KeepDigitsConcat(pre, Trim(s));
    KeepDigitsOfBlank(pre);
    KeepDigitsOfBlank(post);
  }

  lemma {:induction false} KeepDigitsOfBlank(s: string)
    requires AllBlank(s)
    ensures KeepDigits(s) == []
  {
    if s != [] {
      KeepDigitsOfBlank(s[1..]);
    }
  }

  /** What the loop has done so far: the row indices tried, the records
      offered for confirmation, the choices received for them, the records
      confirmed for appending, and whether the user quit. */
  datatype Trace = Trace(attempted: seq<int>, offered: seq<FinalResult>, choices: seq<string>,
                         batch: seq<FinalResult>, quit: bool)

  const Start: Trace := Trace([], [], [], [], false)

  /** One offered record and the choice made for it: `append` adds the
      record to the batch, any other choice leaves the batch alone. */
  function Offer(t: Trace, rowIndex: int, record: FinalResult, choice: string): (r: Trace)
    ensures r.attempted == t.attempted + [rowIndex]
    ensures r.offered == t.offered + [record] && r.choices == t.choices + [choice]
    ensures choice == "append" ==> r.batch == t.batch + [record]
    ensures choice != "append" ==> r.batch == t.batch
    ensures r.quit == t.quit
  {
    t.(attempted := t.attempted + [rowIndex], offered := t.offered + [record],
       choices := t.choices + [choice],
       batch := if choice == "append" then t.batch + [record] else t.batch)
  }

  /** The loop from `rowIndex` on; `answer(k)` is the choice returned for
      the k-th offered record. */
  function Iterate(rows: int -> Option<FinalResult>, answer: nat -> string, rowIndex: int, t: Trace): (r: Trace)
    requires 1 <= rowIndex <= NumIterationsToAttempt + 1
    ensures t.attempted <= r.attempted && t.offered <= r.offered
    ensures t.choices <= r.choices && t.batch <= r.batch
    ensures |r.attempted| <= |t.attempted| + NumIterationsToAttempt + 1 - rowIndex
    ensures forall k :: |t.attempted| <= k < |r.attempted| ==> r.attempted[k] == rowIndex + k - |t.attempted|
    decreases NumIterationsToAttempt + 1 - rowIndex
  {
    if rowIndex > NumIterationsToAttempt then t
    else
      var row := rows(rowIndex);
      if row.None? then
        Iterate(rows, answer, rowIndex + 1, t.(attempted := t.attempted + [rowIndex]))
      else
        var choice := answer(|t.offered|);
        var asked := Offer(t, rowIndex, row.value, choice);
        if choice == "quit" then asked.(quit := true)
        else Iterate(rows, answer, rowIndex + 1, asked)
  }

  /** How a run ends: aborted before extraction when the table never
      became visible, or completed with its trace and the one writer call
      it made, if any. */
  datatype RunOutcome =
    | Aborted
    | Completed(trace: Trace, write: Option<Writer.WriteReport>)

  /** The record each row index yields, if any. */
  function Rows(extract: int -> Extraction): int -> Option<FinalResult> {
    (i: int) => ExtractRow(extract(i))
  }

  /** The choice `getUserChoiceFromWebPage` returns for each offered
      record. */
  function Answers(confirm: nat -> Bridge): nat -> string {
    (k: nat) => GetUserChoice(confirm(k))
  }

  /** `runFifaDataFlow`. */
  function RunFifaDataFlow(tableVisible: bool, extract: int -> Extraction, confirm: nat -> Bridge,
                           config: Writer.Config, service: Writer.Service): (o: RunOutcome)
    ensures o.Aborted? <==> !tableVisible
    ensures o.Completed? ==> o.trace.attempted == [] || o.trace.attempted[0] == 1
  {
    if !tableVisible then Aborted
    else
      var t := Iterate(Rows(extract), Answers(confirm), 1, Start);
      Completed(t, if t.batch == [] then None else Some(Writer.AppendResults(config, Some(t.batch), service)))
  }

  // Reference definitions the loop is proved against.

  /** The records rows 1..n yield, in row order. */
  function Offered(rows: int -> Option<FinalResult>, n: nat): seq<FinalResult> {
    if n == 0 then []
    else
      var row := rows(n);
      Offered(rows, n - 1) + (if row.Some? then [row.value] else [])
  }

  /** The first `n` answers, in order. */
  function ChoicesFor(answer: nat -> string, n: nat): (choices: seq<string>)
    ensures |choices| == n
    ensures forall k :: 0 <= k < n ==> choices[k] == answer(k)
  {
    if n == 0 then [] else ChoicesFor(answer, n - 1) + [answer(n - 1)]
  }

  /** The offered records whose choice was `append`, in order. */
  function Confirmed(offered: seq<FinalResult>, choices: seq<string>): (batch: seq<FinalResult>)
    requires |offered| == |choices|
    ensures |batch| <= |offered|
  {
    if offered == [] then []
    else
      var n := |offered| - 1;
      Confirmed(offered[..n], choices[..n]) + (if choices[n] == "append" then [offered[n]] else [])
  }

  /** Rows tried so far are 1..n; the offered records, choices and batch
      are those the reference definitions give for them. */
  ghost predicate Consistent(rows: int -> Option<FinalResult>, answer: nat -> string, t: Trace) {
    && (forall k :: 0 <= k < |t.attempted| ==> t.attempted[k] == k + 1)
    && t.offered == Offered(rows, |t.attempted|)
    && |t.choices| == |t.offered|
    && t.choices == ChoicesFor(answer, |t.choices|)
    && t.batch == Confirmed(t.offered, t.choices)
  }

  lemma {:induction false} OfferedLength(rows: int -> Option<FinalResult>, n: nat)
    ensures |Offered(rows, n)| <= n
  {
    if n > 0 {
      OfferedLength(rows, n - 1);
    }
  }

  /** How a finished loop stands: at most ten rows tried, all ten unless
      the user quit, and a `quit` is the last choice made, given for the
      record of the last row tried. */
  ghost predicate Finished(rows: int -> Option<FinalResult>, r: Trace) {
    && |r.attempted| <= NumIterationsToAttempt
    && (r.quit <==> "quit" in r.choices)
    && (!r.quit ==> |r.attempted| == NumIterationsToAttempt)
    && (r.quit ==>
          && r.choices != [] && r.choices[|r.choices| - 1] == "quit"
          && "quit" !in r.choices[..|r.choices| - 1]
          && r.offered != []
          && rows(|r.attempted|) == Some(r.offered[|r.offered| - 1]))
  }

  /** A row yielding no record keeps the trace consistent. */
  lemma SkipStep(rows: int -> Option<FinalResult>, answer: nat -> string, rowIndex: int, t: Trace)
    requires rowIndex >= 1 && |t.attempted| == rowIndex - 1
    requires Consistent(rows, answer, t)
    requires rows(rowIndex).None?
    ensures Consistent(rows, answer, t.(attempted := t.attempted + [rowIndex]))
  {
    assert Offered(rows, rowIndex) == t.offered + [];
  }

  /** An offered record, with the next confirmation outcome as its choice,
      keeps the trace consistent. */
  lemma OfferStep(rows: int -> Option<FinalResult>, answer: nat -> string, rowIndex: int, t: Trace)
    requires rowIndex >= 1 && |t.attempted| == rowIndex - 1
    requires Consistent(rows, answer, t)
    requires rows(rowIndex).Some?
    ensures var choice := answer(|t.offered|);
      Consistent(rows, answer, Offer(t, rowIndex, rows(rowIndex).value, choice))
  {
    var record := rows(rowIndex).value;
    var choice := answer(|t.offered|);
    var r := Offer(t, rowIndex, record, choice);
    assert Offered(rows, rowIndex) == r.offered;
    assert r.offered[..|t.offered|] == t.offered && r.choices[..|t.choices|] == t.choices;
    assert Confirmed(r.offered, r.choices) == r.batch;
  }

  /** The loop keeps the trace consistent. */
  lemma {:induction false} IterateConsistent(rows: int -> Option<FinalResult>, answer: nat -> string, rowIndex: int, t: Trace)
    requires 1 <= rowIndex <= NumIterationsToAttempt + 1
    requires |t.attempted| == rowIndex - 1
    requires Consistent(rows, answer, t)
    ensures Consistent(rows, answer, Iterate(rows, answer, rowIndex, t))
    decreases NumIterationsToAttempt + 1 - rowIndex, 1
  {
    if rowIndex <= NumIterationsToAttempt {
      if rows(rowIndex).None? {
        SkipConsistent(rows, answer, rowIndex, t);
      } else {
        OfferConsistent(rows, answer, rowIndex, t);
      }
    }
  }

  /** A row yielding no record, and the loop after it, keep the trace
      consistent. */
  lemma {:induction false} SkipConsistent(rows: int -> Option<FinalResult>, answer: nat -> string, rowIndex: int, t: Trace)
    requires 1 <= rowIndex <= NumIterationsToAttempt
    requires |t.attempted| == rowIndex - 1
    requires Consistent(rows, answer, t)
    requires rows(rowIndex).None?
    ensures Consistent(rows, answer, Iterate(rows, answer, rowIndex, t))
    decreases NumIterationsToAttempt + 1 - rowIndex, 0
  {
    SkipStep(rows, answer, rowIndex, t);
    IterateAfterSkip(rows, answer, rowIndex, t);
    IterateConsistent(rows, answer, rowIndex + 1, t.(attempted := t.attempted + [rowIndex]));
  }

  /** An offered record, and the loop after it unless the choice was
      `quit`, keep the trace consistent. */
  lemma {:induction false} OfferConsistent(rows: int -> Option<FinalResult>, answer: nat -> string, rowIndex: int, t: Trace)
    requires 1 <= rowIndex <= NumIterationsToAttempt
    requires |t.attempted| == rowIndex - 1
    requires Consistent(rows, answer, t)
    requires rows(rowIndex).Some?
    ensures Consistent(rows, answer, Iterate(rows, answer, rowIndex, t))
    decreases NumIterationsToAttempt + 1 - rowIndex, 0
  {
    var asked := Offer(t, rowIndex, rows(rowIndex).value, answer(|t.offered|));
    OfferStep(rows, answer, rowIndex, t);
    IterateAfterOffer(rows, answer, rowIndex, t);
    if answer(|t.offered|) != "quit" {
      ContinueConsistent(rows, answer, rowIndex, asked);
    }
  }

  /** One turn of the loop on a row yielding no record. */
  lemma IterateAfterSkip(rows: int -> Option<FinalResult>, answer: nat -> string, rowIndex: int, t: Trace)
    requires 1 <= rowIndex <= NumIterationsToAttempt
    requires rows(rowIndex).None?
    ensures Iterate(rows, answer, rowIndex, t) ==
      Iterate(rows, answer, rowIndex + 1, t.(attempted := t.attempted + [rowIndex]))
  {
  }

  /** One turn of the loop on a row yielding a record: the record is
      offered, and the loop goes on unless the choice was `quit`. */
  lemma IterateAfterOffer(rows: int -> Option<FinalResult>, answer: nat -> string, rowIndex: int, t: Trace)
    requires 1 <= rowIndex <= NumIterationsToAttempt
    requires rows(rowIndex).Some?
    ensures var asked := Offer(t, rowIndex, rows(rowIndex).value, answer(|t.offered|));
      Iterate(rows, answer, rowIndex, t) ==
        if answer(|t.offered|) == "quit" then asked.(quit := true) else Iterate(rows, answer, rowIndex + 1, asked)
  {
  }

  /** The loop resumed after an offer keeps a consistent trace consistent. */
  lemma {:induction false} ContinueConsistent(rows: int -> Option<FinalResult>, answer: nat -> string, rowIndex: int, asked: Trace)
    requires 1 <= rowIndex <= NumIterationsToAttempt
    requires |asked.attempted| == rowIndex
    requires Consistent(rows, answer, asked)
    ensures Consistent(rows, answer, Iterate(rows, answer, rowIndex + 1, asked))
    decreases NumIterationsToAttempt - rowIndex, 2
  {
    IterateConsistent(rows, answer, rowIndex + 1, asked);
  }

  /** The loop ends as `Finished` says. */
  lemma {:induction false} IterateFinished(rows: int -> Option<FinalResult>, answer: nat -> string, rowIndex: int, t: Trace)
    requires 1 <= rowIndex <= NumIterationsToAttempt + 1
    requires |t.attempted| == rowIndex - 1
    requires !t.quit && "quit" !in t.choices
    ensures Finished(rows, Iterate(rows, answer, rowIndex, t))
    decreases NumIterationsToAttempt + 1 - rowIndex
  {
    if rowIndex <= NumIterationsToAttempt {
      var row := rows(rowIndex);
      if row.None? {
        IterateFinished(rows, answer, rowIndex + 1, t.(attempted := t.attempted + [rowIndex]));
      } else {
        var choice := answer(|t.offered|);
        var asked := Offer(t, rowIndex, row.value, choice);
        if choice == "quit" {
          assert asked.choices[..|asked.choices| - 1] == t.choices;
        } else {
          assert "quit" !in asked.choices;
          IterateFinished(rows, answer, rowIndex + 1, asked);
        }
      }
    }
  }

  /** The whole loop from row 1. */
  lemma LoopFromStart(rows: int -> Option<FinalResult>, answer: nat -> string)
    ensures Consistent(rows, answer, Iterate(rows, answer, 1, Start))
    ensures Finished(rows, Iterate(rows, answer, 1, Start))
  {
    IterateConsistent(rows, answer, 1, Start);
    IterateFinished(rows, answer, 1, Start);
  }

  /** Row indices are tried from 1 upwards with none skipped or repeated;
      all ten are tried unless the user quits. */
  lemma RunTriesRowsInOrder(tableVisible: bool, extract: int -> Extraction, confirm: nat -> Bridge,
                            config: Writer.Config, service: Writer.Service)
    ensures var o := RunFifaDataFlow(tableVisible, extract, confirm, config, service);
      o.Completed? ==>
        && |o.trace.attempted| <= NumIterationsToAttempt
        && (forall k :: 0 <= k < |o.trace.attempted| ==> o.trace.attempted[k] == k + 1)
        && (!o.trace.quit ==> |o.trace.attempted| == NumIterationsToAttempt)
  {
    LoopFromStart(Rows(extract), Answers(confirm));
  }

  /** Exactly the rows that yield a record are offered, in row order, and
      the k-th offered record gets the k-th confirmation outcome. A row
      yielding no record (a blank field, an unparsable year, a failed
      extraction) is skipped without asking. */
  lemma RunOffersExtractedRecords(tableVisible: bool, extract: int -> Extraction, confirm: nat -> Bridge,
                                  config: Writer.Config, service: Writer.Service)
    ensures var o := RunFifaDataFlow(tableVisible, extract, confirm, config, service);
      o.Completed? ==>
        && o.trace.offered == Offered(Rows(extract), |o.trace.attempted|)
        && |o.trace.choices| == |o.trace.offered|
        && o.trace.choices == ChoicesFor(Answers(confirm), |o.trace.offered|)
  {
    LoopFromStart(Rows(extract), Answers(confirm));
  }

  /** The k-th offered record is answered by decoding the k-th confirmation
      outcome: no answer is skipped, reused or taken out of order. */
  lemma RunAnswersEachOffer(tableVisible: bool, extract: int -> Extraction, confirm: nat -> Bridge,
                            config: Writer.Config, service: Writer.Service)
    ensures var o := RunFifaDataFlow(tableVisible, extract, confirm, config, service);
      o.Completed? ==>
        forall k :: 0 <= k < |o.trace.choices| ==> o.trace.choices[k] == GetUserChoice(confirm(k))
  {
    var o := RunFifaDataFlow(tableVisible, extract, confirm, config, service);
    if o.Completed? {
      RunOffersExtractedRecords(tableVisible, extract, confirm, config, service);
    }
  }

  /** The batch is the offered records chosen for `append`, in the order
      they were extracted; it never exceeds the offers, nor the offers the
      rows tried. */
  lemma RunBatchIsAppendedOffers(tableVisible: bool, extract: int -> Extraction, confirm: nat -> Bridge,
                                 config: Writer.Config, service: Writer.Service)
    ensures var o := RunFifaDataFlow(tableVisible, extract, confirm, config, service);
      o.Completed? ==>
        && |o.trace.choices| == |o.trace.offered|
        && o.trace.batch == Confirmed(o.trace.offered, o.trace.choices)
        && |o.trace.batch| <= |o.trace.offered| <= |o.trace.attempted| <= NumIterationsToAttempt
  {
    LoopFromStart(Rows(extract), Answers(confirm));
    if tableVisible {
      OfferedLength(Rows(extract), |Iterate(Rows(extract), Answers(confirm), 1, Start).attempted|);
    }
  }

  /** `quit` ends the loop at once: it is the last choice made, it answers
      the record of the last row tried, and no later row is tried. */
  lemma RunStopsAtQuit(tableVisible: bool, extract: int -> Extraction, confirm: nat -> Bridge,
                       config: Writer.Config, service: Writer.Service)
    ensures var o := RunFifaDataFlow(tableVisible, extract, confirm, config, service);
      o.Completed? ==>
        && (o.trace.quit <==> "quit" in o.trace.choices)
        && (o.trace.quit ==>
              && o.trace.choices[|o.trace.choices| - 1] == "quit"
              && "quit" !in o.trace.choices[..|o.trace.choices| - 1]
              && ExtractRow(extract(|o.trace.attempted|)) == Some(o.trace.offered[|o.trace.offered| - 1]))
  {
    LoopFromStart(Rows(extract), Answers(confirm));
  }

  /** A completed run calls the writer exactly when the batch is non-empty,
      and then with exactly the batch. That the writer is called at most
      once needs no proof: a run holds a single optional write report. */
  lemma RunWritesBatchOnce(tableVisible: bool, extract: int -> Extraction, confirm: nat -> Bridge,
                           config: Writer.Config, service: Writer.Service)
    ensures var o := RunFifaDataFlow(tableVisible, extract, confirm, config, service);
      o.Completed? ==>
        && (o.write.Some? <==> o.trace.batch != [])
        && (o.write.Some? ==> o.write.value == Writer.AppendResults(config, Some(o.trace.batch), service))
  {
  }

  /** Confirming is final: the records confirmed among the first `n`
      offers stay, in order, at the front of the batch of all offers. */
  lemma {:induction false} ConfirmedPrefix(offered: seq<FinalResult>, choices: seq<string>, n: nat)
    requires |offered| == |choices| && n <= |offered|
    ensures Confirmed(offered[..n], choices[..n]) <= Confirmed(offered, choices)
    decreases |offered|
  {
    if n == |offered| {
      assert offered[..n] == offered && choices[..n] == choices;
    } else {
      var m := |offered| - 1;
      assert offered[..m][..n] == offered[..n] && choices[..m][..n] == choices[..n];
      ConfirmedPrefix(offered[..m], choices[..m], n);
    }
  }

  /** Records already confirmed stay confirmed whatever happens later, a
      `quit` included: for every point of a completed run, the batch at that
      point is a prefix of the batch handed to the writer. */
  lemma RunKeepsEarlierConfirmations(tableVisible: bool, extract: int -> Extraction, confirm: nat -> Bridge,
                                     config: Writer.Config, service: Writer.Service)
    ensures var o := RunFifaDataFlow(tableVisible, extract, confirm, config, service);
      o.Completed? ==>
        && |o.trace.choices| == |o.trace.offered|
        && forall n :: 0 <= n <= |o.trace.offered| ==>
             Confirmed(o.trace.offered[..n], o.trace.choices[..n]) <= o.trace.batch
  {
    var o := RunFifaDataFlow(tableVisible, extract, confirm, config, service);
    if o.Completed? {
      RunBatchIsAppendedOffers(tableVisible, extract, confirm, config, service);
      forall n | 0 <= n <= |o.trace.offered|
        ensures Confirmed(o.trace.offered[..n], o.trace.choices[..n]) <= o.trace.batch
      {
        ConfirmedPrefix(o.trace.offered, o.trace.choices, n);
      }
    }
  }

  /** A row with a blank field, or whose year has no digit, adds no offer
      and consumes no confirmation. */
  lemma UnusableRowNotOffered(extract: int -> Extraction, n: nat)
    requires n > 0 && extract(n).Texts?
    requires AllBlank(extract(n).yearText) || AllBlank(extract(n).winnerText) ||
             AllBlank(extract(n).scoreText) || AllBlank(extract(n).runnerUpText) ||
             KeepDigits(extract(n).yearText) == []
    ensures Offered(Rows(extract), n) == Offered(Rows(extract), n - 1)
  {
    ExtractRowSpec(extract(n));
  }
}
