/**
 * The certificate-validation driver ("Dabs"): it walks the queue of records
 * to validate, looks each one up on the records portal, and uploads the
 * certificate image found, skipping whatever it cannot handle. The queue
 * table, the portal and the upload form are inputs; the skip counter is the
 * driver's own state.
 */
module DabsDriver {
  import opened Wrappers
  import opened Text
  import opened AdaPortal
  import opened Records
  import opened PortalSearch

  /** How often the upload widget is looked for, and the file input tried. */
  const UploadWidgetAttempts: nat := 5
  const FileInputAttempts: nat := 10

  /**
   * How the pages behave while one record is handled: the portal's answer
   * to each lookup, whether the k-th look for the upload widget finds it,
   * whether the k-th try of the file input leaves the file attached, and
   * whether the submit button ends up enabled.
   */
  datatype Env = Env(lookup: Lookup, uploadWidget: seq<bool>, fileAttached: seq<bool>, submitEnabled: bool)

  datatype SkipReason =
    | UnknownCategory  // not one of the three mapped categories
    | NotFound         // no lookup found exactly one certificate
    | NotTif           // the downloaded image is not a .tif
    | NoUploadWidget   // the upload widget never showed
    | SubmitDisabled   // the form could not be submitted

  /** How the handling of one record ends. */
  datatype Verdict =
    | PastCutoff                                // dated after MaxYear: the batch ends
    | Skipped(reason: SkipReason)               // left in the queue, skip counter bumped
    | Submitted(image: string, attached: bool)  // image uploaded and the form submitted
    | Failed(error: RecordError)                // an exception escapes

  /** The verdict together with the portal lookups made, in order. */
  datatype Outcome = Outcome(verdict: Verdict, tried: seq<Query>)

  /** The value `_validate_cert` gives back: False at the cutoff, True otherwise, or the exception it raises. */
  function Returned(v: Verdict): (r: Result<bool, RecordError>)
    ensures r == Ok(false) <==> v == PastCutoff
    ensures r.Err? <==> v.Failed?
  {
    match v
    case PastCutoff => Ok(false)
    case Failed(e) => Err(e)
    case _ => Ok(true)
  }

  function SkipDelta(v: Verdict): nat {
    if v.Skipped? then 1 else 0
  }

  /** What a queue row yields before any lookup. */
  datatype Reading =
    | Cutoff                         // dated after MaxYear
    | Unreadable(error: RecordError)
    | Readable(categoryText: string, year: string, surnames: seq<string>, number: Option<string>)

  /**
   * Reading the cells of a row. Cells 1, 3 and 4 are read before the year
   * cutoff and cell 5 after it; the names are taken apart before the number
   * is parsed.
   */
  function ReadCells(cells: Row): (r: Reading)
    ensures r == Cutoff <==> |cells| >= 5 && ParseInt(YearText(cells[4])).Some? && ParseInt(YearText(cells[4])).value > MaxYear
    ensures r.Readable? <==> (|cells| >= 6 && ParseInt(YearText(cells[4])).Some? && ParseInt(YearText(cells[4])).value <= MaxYear
      && Surnames(cells[5]).Ok? && CertNumber(cells[3]).Ok?)
    ensures r.Readable? ==> r == Readable(cells[1], YearText(cells[4]), Surnames(cells[5]).value, CertNumber(cells[3]).value)
  {
    if |cells| < 5 then Unreadable(CellMissing)
    else
      var year := YearText(cells[4]);
      match ParseInt(year)
      case None => Unreadable(YearNotInt)
      case Some(y) =>
        if y > MaxYear then Cutoff
        else if |cells| < 6 then Unreadable(CellMissing)
        else
          match Surnames(cells[5])
          case Err(e) => Unreadable(e)
          case Ok(names) =>
            match CertNumber(cells[3])
            case Err(e) => Unreadable(e)
            case Ok(number) => Readable(cells[1], year, names, number)
  }

  /** Reading queue entry `index` off its page: the entry itself when the queue has it. */
  function ReadEntry(index: nat, queue: seq<Row>): (r: Reading)
    ensures r == if index < |queue| then ReadCells(queue[index]) else Unreadable(RowMissing)
  {
    var at := Locate(index);
    var rows := PageRows(queue, at.page);
    LocateRow(queue, index);
    if at.row >= |rows| then Unreadable(RowMissing) else ReadCells(rows[at.row])
  }

  /**
   * After a lookup downloaded `path`: rename, upload and submit. A file
   * that is no `.tif` is skipped; so is one whose upload widget never shows
   * within its attempts. Otherwise the form is submitted exactly when its
   * submit button is enabled, with `attached` telling whether one of the
   * file-input attempts took the file.
   */
  function Upload(path: string, env: Env): (v: Verdict)
    ensures v.Submitted? ==> (TiffPath(path).Some? && v.image == path + ['f'] && env.submitEnabled
      && FirstTrue(Window(env.uploadWidget, UploadWidgetAttempts)).Some?)
    ensures v.Skipped? || v.Submitted?
    ensures TiffPath(path).None? ==> v == Skipped(NotTif)
    ensures TiffPath(path).Some? && FirstTrue(Window(env.uploadWidget, UploadWidgetAttempts)).None? ==> v == Skipped(NoUploadWidget)
    ensures TiffPath(path).Some? && FirstTrue(Window(env.uploadWidget, UploadWidgetAttempts)).Some? ==>
      (v.Submitted? <==> env.submitEnabled) && (!env.submitEnabled ==> v == Skipped(SubmitDisabled))
    ensures v.Submitted? ==> (v.attached <==> exists k :: 0 <= k < FileInputAttempts && k < |env.fileAttached| && env.fileAttached[k])
  {
    WindowSucceeds(env.fileAttached, FileInputAttempts);
    match TiffPath(path)
    case None => Skipped(NotTif)
    case Some(image) =>
      if FirstTrue(Window(env.uploadWidget, UploadWidgetAttempts)).None? then Skipped(NoUploadWidget)
      else if env.submitEnabled then Submitted(image, FirstTrue(Window(env.fileAttached, FileInputAttempts)).Some?)
      else Skipped(SubmitDisabled)
  }

  /** For a record of portal category `kind`: the portal search, then the upload of what it found. */
  function FindAndUpload(kind: string, year: string, candidates: seq<Candidate>, number: Option<string>, env: Env): Outcome {
    var search := CertSearch(kind, year, candidates, number, env.lookup);
    match search.image
    case None => Outcome(Skipped(NotFound), search.tried)
    case Some(path) => Outcome(Upload(path, env), search.tried)
  }

  /** Handling what was read: the cutoff, a read error, or the category and then the search and upload. */
  function Handle(reading: Reading, env: Env): Outcome {
    match reading
    case Cutoff => Outcome(PastCutoff, [])
    case Unreadable(e) => Outcome(Failed(e), [])
    case Readable(categoryText, year, names, number) =>
      match MapCategory(categoryText)
      case None => Outcome(Skipped(UnknownCategory), [])
      case Some(kind) => FindAndUpload(kind, year, Candidates(names), number, env)
  }

  /** The handling of queue entry `index`, as a function of the queue and the pages' behaviour. */
  function Process(index: nat, queue: seq<Row>, env: Env): Outcome {
    Handle(ReadEntry(index, queue), env)
  }

  /** The plan of lookups for a readable row, with `kind` its portal category. */
  function PlanFor(reading: Reading, kind: string): seq<Query>
    requires reading.Readable?
  {
    LookupPlan(kind, reading.year, Candidates(reading.surnames), reading.number)
  }

  /**
   * Searching and uploading for a record of a known category: the lookups
   * are those of the plan up to its first hit; the record is skipped as not
   * found exactly when every lookup of the plan fails; a submitted image is
   * the `.tiff` name of the `.tif` file the last lookup downloaded, after
   * the upload widget showed and with the submit button enabled. Nothing
   * here returns False or raises, or blames the category.
   */
  lemma FindAndUploadFollowsPlan(kind: string, year: string, candidates: seq<Candidate>, number: Option<string>, env: Env)
    ensures var o := FindAndUpload(kind, year, candidates, number, env);
      var plan := LookupPlan(kind, year, candidates, number);
      && o.tried == Search(plan, env.lookup).tried
      && (o.verdict == Skipped(NotFound) <==> forall k :: 0 <= k < |plan| ==> env.lookup(plan[k]).None?)
      && (o.verdict.Skipped? || o.verdict.Submitted?)
      && o.verdict != Skipped(UnknownCategory)
      && (o.verdict.Submitted? ==>
            && o.tried != []
            && env.lookup(o.tried[|o.tried| - 1]).Some?
            && EndsWithTif(env.lookup(o.tried[|o.tried| - 1]).value)
            && o.verdict.image == env.lookup(o.tried[|o.tried| - 1]).value + ['f']
            && FirstTrue(Window(env.uploadWidget, UploadWidgetAttempts)).Some?
            && env.submitEnabled)
      && (Search(plan, env.lookup).image.Some? ==> o.verdict == Upload(Search(plan, env.lookup).image.value, env))
      && (Search(plan, env.lookup).image.Some? && TiffPath(Search(plan, env.lookup).image.value).Some?
          && FirstTrue(Window(env.uploadWidget, UploadWidgetAttempts)).Some? && env.submitEnabled
          ==> o.verdict.Submitted?)
  {
    CertSearchFollowsPlan(kind, year, candidates, number, env.lookup);
    var search := Search(LookupPlan(kind, year, candidates, number), env.lookup);
    if search.image.Some? {
      assert FindAndUpload(kind, year, candidates, number, env) == Outcome(Upload(search.image.value, env), search.tried);
    }
  }

  /**
   * What was read decides the verdict's kind: False only at the cutoff, an
   * exception only for what could not be read, and in neither case a lookup
   * or a skip.
   */
  lemma HandleVerdicts(reading: Reading, env: Env)
    ensures var o := Handle(reading, env);
      && (o.verdict == PastCutoff <==> reading == Cutoff)
      && (o.verdict.Failed? <==> reading.Unreadable?)
      && (reading.Unreadable? ==> o.verdict == Failed(reading.error))
      && (!reading.Readable? ==> o.tried == [])
  {
    if reading.Readable? && MapCategory(reading.categoryText).Some? {
      FindAndUploadFollowsPlan(MapCategory(reading.categoryText).value, reading.year, Candidates(reading.surnames), reading.number, env);
    }
  }

  /** Apart from the year cutoff, the step returns True or raises; it returns False exactly past the cutoff. */
  lemma OnlyCutoffReturnsFalse(index: nat, queue: seq<Row>, env: Env)
    ensures Returned(Process(index, queue, env).verdict) == Ok(false) <==>
      && index < |queue| && |queue[index]| >= 5
      && ParseInt(YearText(queue[index][4])).Some?
      && ParseInt(YearText(queue[index][4])).value > MaxYear
  {
    HandleVerdicts(ReadEntry(index, queue), env);
  }

  /** A row that is missing, malformed or past the cutoff gets no lookup and no skip; only a missing or malformed one raises. */
  lemma NoLookupUnlessReadable(index: nat, queue: seq<Row>, env: Env)
    requires index >= |queue| || !ReadCells(queue[index]).Readable?
    ensures Process(index, queue, env).tried == []
    ensures Process(index, queue, env).verdict.PastCutoff? || Process(index, queue, env).verdict.Failed?
    ensures Process(index, queue, env).verdict.Failed? <==> index >= |queue| || ReadCells(queue[index]).Unreadable?
  {
    HandleVerdicts(ReadEntry(index, queue), env);
  }

  /**
   * For a readable row, an unknown category is skipped with no lookup; a
   * known one is searched along its plan, stopping at the first hit, and is
   * skipped as not found exactly when every lookup of the plan fails.
   */
  lemma CategoryAndSearch(reading: Reading, env: Env)
    requires reading.Readable?
    ensures var o := Handle(reading, env);
      && (MapCategory(reading.categoryText).None? <==> o.verdict == Skipped(UnknownCategory))
      && (MapCategory(reading.categoryText).None? ==> o.tried == [])
      && (MapCategory(reading.categoryText).Some? ==>
            && o.tried == Search(PlanFor(reading, MapCategory(reading.categoryText).value), env.lookup).tried
            && (o.verdict == Skipped(NotFound) <==>
                  forall k :: 0 <= k < |PlanFor(reading, MapCategory(reading.categoryText).value)| ==>
                    env.lookup(PlanFor(reading, MapCategory(reading.categoryText).value)[k]).None?))
  {
    if MapCategory(reading.categoryText).Some? {
      FindAndUploadFollowsPlan(MapCategory(reading.categoryText).value, reading.year, Candidates(reading.surnames), reading.number, env);
    }
  }

  /**
   * A submitted image is the `.tiff` name of the `.tif` file the last lookup
   * downloaded; the upload widget showed within its attempts and the submit
   * button was enabled.
   */
  lemma SubmittedImageIsTiff(reading: Reading, env: Env)
    requires Handle(reading, env).verdict.Submitted?
    ensures var o := Handle(reading, env);
      && o.tried != []
      && env.lookup(o.tried[|o.tried| - 1]).Some?
      && EndsWithTif(env.lookup(o.tried[|o.tried| - 1]).value)
      && o.verdict.image == env.lookup(o.tried[|o.tried| - 1]).value + ['f']
      && FirstTrue(Window(env.uploadWidget, UploadWidgetAttempts)).Some?
      && env.submitEnabled
  {
    FindAndUploadFollowsPlan(MapCategory(reading.categoryText).value, reading.year, Candidates(reading.surnames), reading.number, env);
  }

  /** Reading queue entry `index`: page and row, the year cutoff, the surnames, then the number. */
  method ReadQueueEntry(index: nat, queue: seq<Row>) returns (reading: Reading)
    ensures reading == ReadEntry(index, queue)
  {
    var at := Locate(index);
    var rows := PageRows(queue, at.page);
    LocateRow(queue, index);
    if at.row >= |rows| {
      return Unreadable(RowMissing);
    }
    var cells := rows[at.row];
    if |cells| < 5 {
      return Unreadable(CellMissing);
    }
    var categoryText, numberText, year := cells[1], cells[3], YearText(cells[4]);
    var yearValue := ParseInt(year);
    if yearValue.None? {
      return Unreadable(YearNotInt);
    }
    if yearValue.value > MaxYear {
      return Cutoff;
    }
    if |cells| < 6 {
      return Unreadable(CellMissing);
    }

    var surnames := ReadSurnames(cells[5]);
    if surnames.Err? {
      return Unreadable(surnames.error);
    }

    var numberValue := ParseInt(numberText);
    if numberValue.None? {
      return Unreadable(NumberNotInt);
    }
    var number: Option<string> := if numberValue.value > 0 then Some(RJust(numberText, NumberWidth, '0')) else None;
    reading := Readable(categoryText, year, surnames.value, number);
  }

  /** The surname of each comma-separated person of a names cell, failing at the first person with no words. */
  method ReadSurnames(cell: string) returns (r: Result<seq<string>, RecordError>)
    ensures r == Surnames(cell)
  {
    var persons := Split(cell, ',');
    var names: seq<string> := [];
    var i := 0;
    assert persons[i..] == persons;
    assert SurnamesOf(persons).Ok? ==> [] + SurnamesOf(persons).value == SurnamesOf(persons).value;
    while i < |persons|
      invariant 0 <= i <= |persons|
      invariant Surnames(cell) == AfterNames(names, SurnamesOf(persons[i..]))
    {
      var surname := LastWord(persons[i]);
      assert persons[i..][0] == persons[i] && persons[i..][1..] == persons[i + 1..];
      if surname.None? {
        return Err(NoSurname);
      }
      AfterNamesStep(names, surname.value, SurnamesOf(persons[i + 1..]));
      names := names + [surname.value];
      i := i + 1;
    }
    assert persons[i..] == [] && names + [] == names;
    return Ok(names);
  }

  /** The lookups for one candidate: the name alone, then name and number when there is a number and the name alone found nothing. */
  method TryCandidate(category: string, year: string, c: Candidate, number: Option<string>, lookup: Lookup)
    returns (image: Option<string>, tried: seq<Query>)
    ensures SearchOutcome(image, tried) == TryName(category, year, c, number, lookup)
  {
    var name := SearchName(c);
    var q := Query(category, year, Some(name), None);
    tried := [q];
    image := lookup(q);
    if image.None? && number.Some? {
      var q' := Query(category, year, Some(name), number);
      tried := tried + [q'];
      image := lookup(q');
    }
  }

  /**
   * Trying the portal: the number alone first when there is one, then per
   * candidate the name alone and, if that failed and there is a number,
   * name and number; the first hit ends the search.
   */
  method SearchCertificate(category: string, year: string, candidates: seq<Candidate>, number: Option<string>, lookup: Lookup)
    returns (image: Option<string>, tried: seq<Query>)
    ensures SearchOutcome(image, tried) == CertSearch(category, year, candidates, number, lookup)
  {
    image, tried := None, [];
    if number.Some? {
      var q := Query(category, year, None, number);
      tried := [q];
      image := lookup(q);
      if image.Some? {
        return;
      }
    }
    ghost var head := tried;
    var i := 0;
    while i < |candidates|
      invariant 0 <= i <= |candidates|
      invariant After(head, SearchNames(category, year, candidates, number, lookup))
        == After(tried, SearchNames(category, year, candidates[i..], number, lookup))
      invariant image.None?
    {
      assert candidates[i..][1..] == candidates[i + 1..];
      ghost var before := tried;
      ghost var rest := SearchNames(category, year, candidates[i + 1..], number, lookup);
      var more;
      image, more := TryCandidate(category, year, candidates[i], number, lookup);
      tried := tried + more;
      if image.Some? {
        return;
      }
      assert before + (more + rest.tried) == tried + rest.tried;
      i := i + 1;
    }
    assert candidates[i..] == [];
    assert number.None? ==>
      head + SearchNames(category, year, candidates, number, lookup).tried == SearchNames(category, year, candidates, number, lookup).tried;
  }

  /**
   * A step retried at most `limit` times, stopping at the first attempt that
   * succeeds (`outcomes[k]` is whether attempt k does; attempts past the
   * given outcomes fail).
   */
  method RetryBounded(limit: nat, outcomes: seq<bool>) returns (found: bool, attempts: nat)
    ensures attempts <= limit
    ensures found <==> exists k :: 0 <= k < limit && k < |outcomes| && outcomes[k]
    ensures found <==> FirstTrue(Window(outcomes, limit)).Some?
    ensures found ==> attempts == FirstTrue(Window(outcomes, limit)).value + 1
    ensures !found ==> attempts == limit
  {
    ghost var w := Window(outcomes, limit);
    found, attempts := false, 0;
    while attempts < limit
      invariant attempts <= limit
      invariant forall k :: 0 <= k < attempts ==> !w[k]
    {
      var ok := attempts < |outcomes| && outcomes[attempts];
      attempts := attempts + 1;
      if ok {
        found := true;
        break;
      }
    }
    if found {
      assert w[attempts - 1];
    } else {
      assert forall k :: 0 <= k < limit ==> !w[k];
    }
  }

  /** One pass of the batch: the queue as the page shows it, and how the pages behave. */
  datatype Round = Round(queue: seq<Row>, env: Env)

  /** Where a batch over a finite run of rounds ends: the counter, rounds used, and the last value returned. */
  datatype RunOutcome = RunOutcome(counter: nat, ran: nat, last: Result<bool, RecordError>)

  /** The verdict of one round, handling the record at the counter. */
  function RoundVerdict(counter: nat, round: Round): Verdict {
    Process(counter, round.queue, round.env).verdict
  }

  /** `while _validate_cert(skip_counter): pass` over the rounds given, for any per-round step (the driver's is RoundVerdict). */
  function Run(step: (nat, Round) -> Verdict, counter: nat, rounds: seq<Round>): RunOutcome
    decreases |rounds|
  {
    if rounds == [] then RunOutcome(counter, 0, Ok(true))
    else
      var v := step(counter, rounds[0]);
      var next := counter + SkipDelta(v);
      if Returned(v) != Ok(true) then RunOutcome(next, 1, Returned(v))
      else
        var rest := Run(step, next, rounds[1..]);
        RunOutcome(rest.counter, rest.ran + 1, rest.last)
  }

  /**
   * The batch moves the counter by at most one per record handled, never
   * back; it stops before the rounds run out only on False or an exception.
   */
  lemma {:induction false} RunBounds(step: (nat, Round) -> Verdict, counter: nat, rounds: seq<Round>)
    ensures var o := Run(step, counter, rounds);
      && o.ran <= |rounds|
      && counter <= o.counter <= counter + o.ran
      && (o.ran < |rounds| ==> o.last != Ok(true))
      && (o.last == Ok(true) ==> o.ran == |rounds|)
    decreases |rounds|
  {
    if rounds != [] {
      var v := step(counter, rounds[0]);
      if Returned(v) == Ok(true) {
        RunBounds(step, counter + SkipDelta(v), rounds[1..]);
      }
    }
  }

  /** `o` seen from `ran` rounds earlier. */
  function Later(o: RunOutcome, ran: nat): RunOutcome {
    RunOutcome(o.counter, o.ran + ran, o.last)
  }

  /**
   * One round of the batch, `ran` rounds in: a step that returns True goes
   * on with the rest from the new counter; any other ends the batch there.
   */
  lemma RunStep(step: (nat, Round) -> Verdict, start: nat, rounds: seq<Round>, ran: nat, counter: nat, v: Verdict)
    requires ran < |rounds| && v == step(counter, rounds[ran])
    requires Run(step, start, rounds) == Later(Run(step, counter, rounds[ran..]), ran)
    ensures Returned(v) == Ok(true) ==>
      Run(step, start, rounds) == Later(Run(step, counter + SkipDelta(v), rounds[ran + 1..]), ran + 1)
    ensures Returned(v) != Ok(true) ==>
      Run(step, start, rounds) == RunOutcome(counter + SkipDelta(v), ran + 1, Returned(v))
  {
    assert rounds[ran..][0] == rounds[ran] && rounds[ran..][1..] == rounds[ran + 1..];
  }

  class Dabs {
    /** Records skipped so far: since handled records leave the queue, also the queue index of the next record. */
    var skipCounter: nat

    /** `stored` is the counter kept from an earlier run, if there is one. */
    constructor (stored: Option<nat>)
      ensures skipCounter == if stored.Some? then stored.value else 0
    {
      skipCounter := if stored.Some? then stored.value else 0;
    }

    method Skip()
      modifies this
      ensures skipCounter == old(skipCounter) + 1
    {
      skipCounter := skipCounter + 1;
    }

    /** After a lookup downloaded `path`: the `.tif` check and rename, the upload widget, the file input, then submit or skip. */
    method UploadFound(path: string, env: Env) returns (verdict: Verdict)
      modifies this
      ensures verdict == Upload(path, env)
      ensures skipCounter == old(skipCounter) + SkipDelta(verdict)
    {
      var parts := SplitExt(path);
      if parts.1 != ".tif" {
        Skip();
        return Skipped(NotTif);
      }
      var image := parts.0 + ".tiff";
      assert TiffPath(path) == Some(image);

      var widgetShown, _ := RetryBounded(UploadWidgetAttempts, env.uploadWidget);
      if !widgetShown {
        Skip();
        return Skipped(NoUploadWidget);
      }

      var attached, _ := RetryBounded(FileInputAttempts, env.fileAttached);
      if env.submitEnabled {
        verdict := Submitted(image, attached);
      } else {
        Skip();
        verdict := Skipped(SubmitDisabled);
      }
    }

    /** The search and upload for a record of portal category `kind`, skipping what cannot be found or uploaded. */
    method FindAndUploadCert(kind: string, year: string, candidates: seq<Candidate>, number: Option<string>, env: Env)
      returns (verdict: Verdict, tried: seq<Query>)
      modifies this
      ensures Outcome(verdict, tried) == FindAndUpload(kind, year, candidates, number, env)
      ensures skipCounter == old(skipCounter) + SkipDelta(verdict)
    {
      var found;
      found, tried := SearchCertificate(kind, year, candidates, number, env.lookup);
      if found.None? {
        Skip();
        return Skipped(NotFound), tried;
      }
      verdict := UploadFound(found.value, env);
    }

    /** Handles what was read off a row: the cutoff, a read error, or the category mapping and then the search and upload. */
    method HandleReading(reading: Reading, env: Env)
      returns (r: Result<bool, RecordError>, verdict: Verdict, tried: seq<Query>)
      modifies this
      ensures Outcome(verdict, tried) == Handle(reading, env)
      ensures r == Returned(verdict)
      ensures skipCounter == old(skipCounter) + SkipDelta(verdict)
    {
      if reading.Cutoff? {
        return Ok(false), PastCutoff, [];
      } else if reading.Unreadable? {
        return Err(reading.error), Failed(reading.error), [];
      }

      var kind: string;
      if reading.categoryText == "Huwelijk" {
        kind := "Huwelijksakte";
      } else if reading.categoryText == "Overlijden" {
        kind := "Overlijdensakte";
      } else if reading.categoryText == "Geboorte" {
        kind := "Geboorteakte";
      } else {
        Skip();
        return Ok(true), Skipped(UnknownCategory), [];
      }
      assert MapCategory(reading.categoryText) == Some(kind);

      verdict, tried := FindAndUploadCert(kind, reading.year, Candidates(reading.surnames), reading.number, env);
      r := Ok(true);
    }

    /** Handles queue entry `index`; what it returns and the lookups it makes are those of `Process`. */
    method ValidateCert(index: nat, queue: seq<Row>, env: Env)
      returns (r: Result<bool, RecordError>, verdict: Verdict, tried: seq<Query>)
      modifies this
      ensures Outcome(verdict, tried) == Process(index, queue, env)
      ensures r == Returned(verdict)
      ensures skipCounter == old(skipCounter) + SkipDelta(verdict)
    {
      var reading := ReadQueueEntry(index, queue);
      r, verdict, tried := HandleReading(reading, env);
    }

    /**
     * One round of the batch, `ran` rounds in: the step on the record at the
     * counter, on that round's page. A True goes on with the rest of the
     * batch from the new counter; anything else ends the batch here. `step`
     * is the driver's step, RoundVerdict, named apart so that the batch is
     * reasoned about one round at a time.
     */
    method RunRound(ghost step: (nat, Round) -> Verdict, ghost start: nat, rounds: seq<Round>, ran: nat)
      returns (r: Result<bool, RecordError>)
      requires forall c: nat, round: Round {:trigger RoundVerdict(c, round)} :: step(c, round) == RoundVerdict(c, round)
      requires ran < |rounds|
      requires Run(step, start, rounds) == Later(Run(step, skipCounter, rounds[ran..]), ran)
      modifies this
      ensures r == Ok(true) ==> Run(step, start, rounds) == Later(Run(step, skipCounter, rounds[ran + 1..]), ran + 1)
      ensures r != Ok(true) ==> Run(step, start, rounds) == RunOutcome(skipCounter, ran + 1, r)
    {
      var counter := skipCounter;
      var verdict;
      r, verdict := HandleRound(rounds[ran]);
      RunStep(step, start, rounds, ran, counter, verdict);
    }

    /** The step on the record at the counter, on the page of `round`. */
    method HandleRound(round: Round) returns (r: Result<bool, RecordError>, verdict: Verdict)
      modifies this
      ensures verdict == RoundVerdict(old(skipCounter), round)
      ensures r == Returned(verdict)
      ensures skipCounter == old(skipCounter) + SkipDelta(verdict)
    {
      var tried;
      r, verdict, tried := ValidateCert(skipCounter, round.queue, round.env);
    }

    /**
     * `validate_all_certs`: handles the record at the skip counter, round
     * after round, while the step returns True; an exception ends the batch
     * as well. The rounds given bound the batch.
     */
    method ValidateAllCerts(rounds: seq<Round>) returns (last: Result<bool, RecordError>, ran: nat)
      modifies this
      ensures Run(RoundVerdict, old(skipCounter), rounds) == RunOutcome(skipCounter, ran, last)
    {
      last, ran := Ok(true), 0;
      while ran < |rounds|
        invariant ran <= |rounds| && last == Ok(true)
        invariant Run(RoundVerdict, old(skipCounter), rounds) == Later(Run(RoundVerdict, skipCounter, rounds[ran..]), ran)
      {
        var result := RunRound(RoundVerdict, old(skipCounter), rounds, ran);
        ran := ran + 1;
        if result != Ok(true) {
          last := result;
          break;
        }
      }
    }
  }
}
