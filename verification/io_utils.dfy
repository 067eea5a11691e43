/** `load_json_files` of `utils/io_utils.py` as a pure filter over the
    directory listing.

    The listing and the outcome of `json.load` for each file are an input
    sequence; the accepted `(filename, document)` pairs, the `invalid_json`
    error records and the archived `event_*` documents are outputs, and the
    folder of `missing_session` error files is a set of names passed in and
    returned. An exception that escapes the Python function is an `Err`
    carrying the outputs produced before it: the error records written, the
    files archived and the `missing_session` files removed stay done. */
module IoUtils {
  import opened Wrappers
  import opened JsonValue
  import opened Dates
  import opened TimestampTracker

  predicate StartsWith(s: string, prefix: string) {
    |prefix| <= |s| && s[..|prefix|] == prefix
  }

  /** A character that differs from the prefix's rules the prefix out. */
  lemma DiffersFromPrefix(s: string, prefix: string, k: nat)
    requires k < |s| && k < |prefix| && s[k] != prefix[k]
    ensures !StartsWith(s, prefix)
  {
    if |prefix| <= |s| {
      assert s[..|prefix|][k] == s[k];
    }
  }

  predicate EndsWith(s: string, suffix: string) {
    |suffix| <= |s| && s[|s| - |suffix|..] == suffix
  }

  /** The three document kinds, each with its watermark slot. */
  datatype Category = Bills | VoteEvents | Events {
    function Key(): string {
      match this
      case Bills => "bills"
      case VoteEvents => "vote_events"
      case Events => "events"
    }
  }

  /** The category a filename selects, checked in the order `bill`,
      `vote_event`, `event`; `None` for a name with none of these prefixes,
      which is accepted without a timestamp check. */
  function CategoryOf(name: string): (c: Option<Category>)
    ensures c == Some(Bills) <==> StartsWith(name, "bill")
    ensures c == Some(VoteEvents) <==> !StartsWith(name, "bill") && StartsWith(name, "vote_event")
    ensures c == Some(Events) <==> !StartsWith(name, "bill") && !StartsWith(name, "vote_event")
                                   && StartsWith(name, "event")
  {
    if StartsWith(name, "bill") then Some(Bills)
    else if StartsWith(name, "vote_event") then Some(VoteEvents)
    else if StartsWith(name, "event") then Some(Events)
    else None
  }

  /** What `json.load` made of a file. */
  datatype Decoding = Decoded(doc: Json) | Undecodable(raw: string)

  /** One name of the directory listing with its content. */
  datatype Entry = Entry(name: string, content: Decoding)

  /** The arguments of one `record_error_file` call. */
  datatype ErrorRecord = ErrorRecord(tag: string, filename: string, error: string, raw: string)

  function InvalidJson(name: string, raw: string): ErrorRecord {
    ErrorRecord("invalid_json", name, "Could not parse JSON", raw)
  }

  /** The outputs of a run: accepted pairs in listing order, error records,
      archived `event_*` documents, and the names left in the
      `missing_session` error folder. */
  datatype Batch = Batch(accepted: seq<(string, Json)>, errors: seq<ErrorRecord>,
                         archived: seq<(string, Json)>, missingSession: set<string>)

  /** The exceptions that escape `load_json_files`. */
  datatype Crash =
    | KeyError(key: string)             // a watermark slot is missing
    | AttributeError(filename: string)  // `.get` on a document that is not an object
    | TypeError(filename: string)       // `is_newer_than_latest` called with three arguments

  /** An exception escaping the run, with the outputs produced before it. */
  datatype Failure = Failure(crash: Crash, partial: Batch)

  /** The three watermarks looked up at the start. */
  datatype Cutoffs = Cutoffs(bills: Option<Timestamp>, voteEvents: Option<Timestamp>, events: Option<Timestamp>) {
    function For(c: Category): Option<Timestamp> {
      match c
      case Bills => bills
      case VoteEvents => voteEvents
      case Events => events
    }
  }

  /** How the newness check is called: `AsWritten` is the three-argument
      call of the source, which Python rejects with `TypeError`;
      `Intended` is the two-argument call `is_newer_than_latest(data, ts)`. */
  datatype CallShape = AsWritten | Intended

  /** Appends an accepted file; an `event_*` file is also archived and its
      `missing_session` error file removed. Archiving keeps the archive equal
      to the `event_*` part of the accepted pairs. */
  function Accept(b: Batch, name: string, doc: Json): (r: Batch)
    ensures r.accepted == b.accepted + [(name, doc)] && r.errors == b.errors
    ensures b.archived == EventFiles(b.accepted) ==> r.archived == EventFiles(r.accepted)
    ensures forall n :: n in r.missingSession <==> n in b.missingSession && !(n == name && StartsWith(name, "event_"))
  {
    var archive := StartsWith(name, "event_");
    var r := b.(accepted := b.accepted + [(name, doc)],
                archived := if archive then b.archived + [(name, doc)] else b.archived,
                missingSession := if archive then b.missingSession - {name} else b.missingSession);
    assert r.accepted[..|b.accepted|] == b.accepted;
    r
  }

  /** The exception a raising file ends the run with. */
  function CrashOf(shape: CallShape, name: string): Crash {
    if shape == AsWritten then TypeError(name) else AttributeError(name)
  }

  /** One iteration of the loop over the listing: the file raises exactly
      when `Raises` says so, and then nothing of it is recorded; otherwise it
      adds its accepted pair when it `Passes` and its error record when it is
      an undecodable `.json` file. */
  function Step(shape: CallShape, b: Batch, e: Entry, w: Cutoffs): (r: Result<Batch, Failure>)
    ensures r.Err? <==> Raises(shape, e)
    ensures r.Err? ==> r.error == Failure(CrashOf(shape, e.name), b)
    ensures r.Ok? ==> r.value.accepted == b.accepted + (if Passes(e, w) then [(e.name, e.content.doc)] else [])
    ensures r.Ok? ==> r.value.errors == b.errors + (if EndsWith(e.name, ".json") && e.content.Undecodable?
                                                     then [InvalidJson(e.name, e.content.raw)] else [])
    ensures r.Ok? && b.archived == EventFiles(b.accepted) ==> r.value.archived == EventFiles(r.value.accepted)
    ensures r.Ok? ==> r.value.missingSession
                      == b.missingSession - (if Passes(e, w) && StartsWith(e.name, "event_") then {e.name} else {})
  {
    if !EndsWith(e.name, ".json") then Ok(b)
    else
      match e.content
      case Undecodable(raw) => Ok(b.(errors := b.errors + [InvalidJson(e.name, raw)]))
      case Decoded(doc) =>
        match CategoryOf(e.name)
        case None => Ok(Accept(b, e.name, doc))
        case Some(c) =>
          if shape == AsWritten then Err(Failure(TypeError(e.name), b))
          else if !doc.JObj? then Err(Failure(AttributeError(e.name), b))
          else if !IsNewerThanLatest(doc.fields, w.For(c)) then Ok(b)
          else Ok(Accept(b, e.name, doc))
  }

  // ---- Reference description of the outcome -------------------------------

  /** A file that ends the run with an exception: a decoded `.json` file
      with a category prefix. The three-argument call raises for every such
      file; the intended call only when the document is not an object
      (`.get` on a non-dict). */
  predicate Raises(shape: CallShape, e: Entry) {
    && EndsWith(e.name, ".json")
    && e.content.Decoded?
    && CategoryOf(e.name).Some?
    && (shape == AsWritten || !e.content.doc.JObj?)
  }

  /** A file the run accepts: a `.json` name, decoded, and either of no
      category or an object that passes the newness check of its category. */
  predicate Passes(e: Entry, w: Cutoffs) {
    && EndsWith(e.name, ".json")
    && e.content.Decoded?
    && (CategoryOf(e.name).None?
        || (e.content.doc.JObj? && IsNewerThanLatest(e.content.doc.fields, w.For(CategoryOf(e.name).value))))
  }

  /** The index of the first raising file, `|entries|` when none raises. */
  function FirstRaise(shape: CallShape, entries: seq<Entry>): (k: nat)
    ensures k <= |entries|
    ensures forall j :: 0 <= j < k ==> !Raises(shape, entries[j])
    ensures k < |entries| ==> Raises(shape, entries[k])
    decreases |entries|
  {
    if |entries| == 0 then 0
    else
      var prefix := entries[..|entries| - 1];
      var k := FirstRaise(shape, prefix);
      assert forall j :: 0 <= j < |prefix| ==> prefix[j] == entries[j];
      if k < |prefix| then k
      else if Raises(shape, entries[|entries| - 1]) then |prefix|
      else |entries|
  }

  /** The accepted pairs: the listing, filtered by `Passes`, in order. */
  function AcceptedOf(entries: seq<Entry>, w: Cutoffs): seq<(string, Json)>
    decreases |entries|
  {
    if |entries| == 0 then []
    else
      var e := entries[|entries| - 1];
      AcceptedOf(entries[..|entries| - 1], w) + (if Passes(e, w) then [(e.name, e.content.doc)] else [])
  }

  /** The error records: one per undecodable `.json` file, in order. */
  function ErrorsOf(entries: seq<Entry>): seq<ErrorRecord>
    decreases |entries|
  {
    if |entries| == 0 then []
    else
      var e := entries[|entries| - 1];
      ErrorsOf(entries[..|entries| - 1])
        + (if EndsWith(e.name, ".json") && e.content.Undecodable? then [InvalidJson(e.name, e.content.raw)] else [])
  }

  /** The `event_*` pairs among `pairs`, in order. */
  function EventFiles(pairs: seq<(string, Json)>): seq<(string, Json)>
    decreases |pairs|
  {
    if |pairs| == 0 then []
    else
      var p := pairs[|pairs| - 1];
      EventFiles(pairs[..|pairs| - 1]) + (if StartsWith(p.0, "event_") then [p] else [])
  }

  function Names(pairs: seq<(string, Json)>): set<string> {
    set p | p in pairs :: p.0
  }

  /** The outputs of processing `entries` without an exception: accepted
      pairs filtered in listing order, one `invalid_json` record per
      undecodable file, the `event_*` part of the accepted pairs archived and
      their names cleared from the `missing_session` folder. */
  function Reference(entries: seq<Entry>, w: Cutoffs, missing: set<string>): Batch {
    var accepted := AcceptedOf(entries, w);
    var archived := EventFiles(accepted);
    Batch(accepted, ErrorsOf(entries), archived, missing - Names(archived))
  }

  /** The number of `.json` names in the listing. */
  function JsonCount(entries: seq<Entry>): nat
    decreases |entries|
  {
    if |entries| == 0 then 0
    else JsonCount(entries[..|entries| - 1]) + (if EndsWith(entries[|entries| - 1].name, ".json") then 1 else 0)
  }

  // ---- The loop ------------------------------------------------------------

  /** The loop of `load_json_files` over `entries`. It raises exactly when
      some file raises, at the first one, keeping the outputs of the files
      before it; otherwise it produces the reference outputs of the whole
      listing. */
  function Scan(shape: CallShape, entries: seq<Entry>, w: Cutoffs, missing: set<string>): (r: Result<Batch, Failure>)
    ensures var k := FirstRaise(shape, entries);
            && (r.Ok? <==> k == |entries|)
            && (r.Ok? ==> r.value == Reference(entries, w, missing))
            && (r.Err? ==> k < |entries|
                           && r.error == Failure(CrashOf(shape, entries[k].name), Reference(entries[..k], w, missing)))
    decreases |entries|
  {
    if |entries| == 0 then
      assert Names([]) == {};
      Ok(Batch([], [], [], missing))
    else
      var prefix := entries[..|entries| - 1];
      match Scan(shape, prefix, w, missing)
      case Err(f) =>
        var k := FirstRaise(shape, prefix);
        assert entries[..k] == prefix[..k];
        Err(f)
      case Ok(b) =>
        StepOutcome(shape, entries, b, w, missing);
        Step(shape, b, entries[|entries| - 1], w)
  }

  /** A step from the reference outputs of all but the last file gives the
      reference outputs of the whole listing, or fails at the last file with
      those of all but it. */
  lemma StepOutcome(shape: CallShape, entries: seq<Entry>, b: Batch, w: Cutoffs, missing: set<string>)
    requires |entries| > 0
    requires b == Reference(entries[..|entries| - 1], w, missing)
    ensures var r := Step(shape, b, entries[|entries| - 1], w);
            r.Ok? ==> r.value == Reference(entries, w, missing)
  {
    var r := Step(shape, b, entries[|entries| - 1], w);
    ReferenceSnoc(entries, w, missing);
    if r.Ok? {
      var after := Reference(entries, w, missing);
      assert r.value.accepted == after.accepted;
      assert r.value.errors == after.errors;
      assert r.value.archived == after.archived;
      assert r.value.missingSession == after.missingSession;
    }
  }

  /** The reference outputs of a listing are those of the listing without
      its last file, extended by what that file contributes. */
  lemma ReferenceSnoc(entries: seq<Entry>, w: Cutoffs, missing: set<string>)
    requires |entries| > 0
    ensures var e := entries[|entries| - 1];
            var before := Reference(entries[..|entries| - 1], w, missing);
            var after := Reference(entries, w, missing);
            && after.accepted == before.accepted + (if Passes(e, w) then [(e.name, e.content.doc)] else [])
            && after.errors == before.errors + (if EndsWith(e.name, ".json") && e.content.Undecodable?
                                                then [InvalidJson(e.name, e.content.raw)] else [])
            && after.archived == EventFiles(after.accepted)
            && after.missingSession
               == before.missingSession - (if Passes(e, w) && StartsWith(e.name, "event_") then {e.name} else {})
  {
    var e := entries[|entries| - 1];
    var before := Reference(entries[..|entries| - 1], w, missing);
    var after := Reference(entries, w, missing);
    assert after.accepted == AcceptedOf(entries, w);
    assert AcceptedOf(entries, w) == before.accepted + (if Passes(e, w) then [(e.name, e.content.doc)] else []);
    assert after.errors == ErrorsOf(entries);
    if Passes(e, w) && StartsWith(e.name, "event_") {
      var p := (e.name, e.content.doc);
      assert after.accepted == before.accepted + [p];
      assert after.accepted[..|before.accepted|] == before.accepted;
      assert after.archived == before.archived + [p];
      assert Names(before.archived + [p]) == Names(before.archived) + {e.name};
    } else {
      EventFilesUnchanged(before.accepted, after.accepted, e, w);
      assert after.archived == before.archived;
    }
  }


  /** Without a new `event_*` pair the archive does not change. */
  lemma EventFilesUnchanged(before: seq<(string, Json)>, after: seq<(string, Json)>, e: Entry, w: Cutoffs)
    requires after == before + (if Passes(e, w) then [(e.name, e.content.doc)] else [])
    requires !(Passes(e, w) && StartsWith(e.name, "event_"))
    ensures EventFiles(after) == EventFiles(before)
  {
    if Passes(e, w) {
      assert after[..|before|] == before;
    }
  }

  /** The three watermarks, or the `KeyError` of the first missing one, in
      the order `bills`, `vote_events`, `events`. */
  function LookUpCutoffs(watermarks: Watermarks): Result<Cutoffs, Crash> {
    if "bills" !in watermarks then Err(KeyError("bills"))
    else if "vote_events" !in watermarks then Err(KeyError("vote_events"))
    else if "events" !in watermarks then Err(KeyError("events"))
    else Ok(Cutoffs(watermarks["bills"], watermarks["vote_events"], watermarks["events"]))
  }

  /** `load_json_files(input_folder, ..., latest_timestamps_dt)` with the
      intended two-argument newness call. A missing watermark slot raises
      `KeyError` before any file is read. Otherwise the run raises
      `AttributeError` at the first categorised file whose document is not an
      object, keeping the outputs of the files before it, or produces the
      reference outputs of the whole listing. */
  function LoadJsonFiles(entries: seq<Entry>, watermarks: Watermarks, missing: set<string>): (r: Result<Batch, Failure>)
    ensures r.Err? && r.error.crash.KeyError? <==>
              "bills" !in watermarks || "vote_events" !in watermarks || "events" !in watermarks
    ensures r.Err? && r.error.crash.KeyError? ==>
              && r.error.crash.key == (if "bills" !in watermarks then "bills"
                                       else if "vote_events" !in watermarks then "vote_events"
                                       else "events")
              && r.error.crash.key !in watermarks
              && r.error.partial == Batch([], [], [], missing)
    ensures "bills" in watermarks && "vote_events" in watermarks && "events" in watermarks ==>
              var w := Cutoffs(watermarks["bills"], watermarks["vote_events"], watermarks["events"]);
              var k := FirstRaise(Intended, entries);
              && (r.Err? <==> exists i :: 0 <= i < |entries| && Raises(Intended, entries[i]))
              && (r.Ok? ==> r.value == Reference(entries, w, missing))
              && (r.Err? ==> k < |entries|
                             && r.error == Failure(AttributeError(entries[k].name), Reference(entries[..k], w, missing)))
  {
    match LookUpCutoffs(watermarks)
    case Err(x) => Err(Failure(x, Batch([], [], [], missing)))
    case Ok(w) => Scan(Intended, entries, w, missing)
  }

  /** `load_json_files` as the source is written: the same lookups and loop,
      but the three-argument newness call raises `TypeError` at the first
      decoded `.json` file with a category prefix, keeping the outputs of the
      files before it. A run completes only for a listing without such a
      file. */
  function LoadJsonFilesAsWritten(entries: seq<Entry>, watermarks: Watermarks, missing: set<string>): (r: Result<Batch, Failure>)
    ensures r.Err? && r.error.crash.KeyError? <==>
              "bills" !in watermarks || "vote_events" !in watermarks || "events" !in watermarks
    ensures r.Err? && r.error.crash.KeyError? ==>
              && r.error.crash.key == (if "bills" !in watermarks then "bills"
                                       else if "vote_events" !in watermarks then "vote_events"
                                       else "events")
              && r.error.crash.key !in watermarks
              && r.error.partial == Batch([], [], [], missing)
    ensures "bills" in watermarks && "vote_events" in watermarks && "events" in watermarks ==>
              var w := Cutoffs(watermarks["bills"], watermarks["vote_events"], watermarks["events"]);
              var k := FirstRaise(AsWritten, entries);
              && (r.Ok? <==> forall i :: 0 <= i < |entries| ==>
                               (EndsWith(entries[i].name, ".json") && entries[i].content.Decoded?
                                ==> CategoryOf(entries[i].name).None?))
              && (r.Ok? ==> r.value == Reference(entries, w, missing))
              && (r.Err? ==> k < |entries|
                             && r.error == Failure(TypeError(entries[k].name), Reference(entries[..k], w, missing)))
  {
    match LookUpCutoffs(watermarks)
    case Err(x) => Err(Failure(x, Batch([], [], [], missing)))
    case Ok(w) => Scan(AsWritten, entries, w, missing)
  }

  // ---- Properties of the outcome ------------------------------------------

  /** A pair is accepted exactly when it is the name and document of a
      listed file that passes. */
  lemma {:induction false} AcceptedMembership(entries: seq<Entry>, w: Cutoffs, p: (string, Json))
    ensures p in AcceptedOf(entries, w) <==>
              exists i :: 0 <= i < |entries| && Passes(entries[i], w) && p == (entries[i].name, entries[i].content.doc)
    decreases |entries|
  {
    if |entries| > 0 {
      var prefix := entries[..|entries| - 1];
      AcceptedMembership(prefix, w, p);
      assert forall i :: 0 <= i < |prefix| ==> prefix[i] == entries[i];
    }
  }

  /** An error record exists exactly for each undecodable `.json` file, and
      carries its raw text under the `invalid_json` tag. */
  lemma {:induction false} ErrorsMembership(entries: seq<Entry>, er: ErrorRecord)
    ensures er in ErrorsOf(entries) <==>
              exists i :: 0 <= i < |entries| && EndsWith(entries[i].name, ".json")
                          && entries[i].content.Undecodable?
                          && er == InvalidJson(entries[i].name, entries[i].content.raw)
    decreases |entries|
  {
    if |entries| > 0 {
      var prefix := entries[..|entries| - 1];
      ErrorsMembership(prefix, er);
      assert forall i :: 0 <= i < |prefix| ==> prefix[i] == entries[i];
    }
  }

  /** Only `.json` names reach any output: every accepted pair and every
      error record names a `.json` file. */
  lemma OnlyJsonNamesInOutputs(entries: seq<Entry>, w: Cutoffs)
    ensures forall p :: p in AcceptedOf(entries, w) ==> EndsWith(p.0, ".json")
    ensures forall er :: er in ErrorsOf(entries) ==> EndsWith(er.filename, ".json") && er.tag == "invalid_json"
  {
    forall p | p in AcceptedOf(entries, w)
      ensures EndsWith(p.0, ".json")
    {
      AcceptedMembership(entries, w, p);
    }
    forall er | er in ErrorsOf(entries)
      ensures EndsWith(er.filename, ".json") && er.tag == "invalid_json"
    {
      ErrorsMembership(entries, er);
    }
  }

  /** Each `.json` file contributes at most one accepted pair or one error
      record, never both. */
  lemma {:induction false} AcceptedAndErrorsBounded(entries: seq<Entry>, w: Cutoffs)
    ensures |AcceptedOf(entries, w)| + |ErrorsOf(entries)| <= JsonCount(entries)
    decreases |entries|
  {
    if |entries| > 0 {
      AcceptedAndErrorsBounded(entries[..|entries| - 1], w);
    }
  }

  /** The archived pairs are exactly the accepted pairs whose name starts
      with `event_`. */
  lemma {:induction false} EventFilesMembership(pairs: seq<(string, Json)>, p: (string, Json))
    ensures p in EventFiles(pairs) <==> p in pairs && StartsWith(p.0, "event_")
    decreases |pairs|
  {
    if |pairs| > 0 {
      var prefix := pairs[..|pairs| - 1];
      EventFilesMembership(prefix, p);
      assert pairs == prefix + [pairs[|pairs| - 1]];
    }
  }

  predicate DistinctNames(entries: seq<Entry>) {
    forall i, j :: 0 <= i < j < |entries| ==> entries[i].name != entries[j].name
  }

  /** A file that fails the newness check leaves no trace: it is not
      accepted, not archived, not recorded as an error, and its
      `missing_session` error file is left as it was. */
  lemma RejectedLeavesNoTrace(entries: seq<Entry>, watermarks: Watermarks, missing: set<string>, i: nat)
    requires DistinctNames(entries)
    requires i < |entries|
    requires LoadJsonFiles(entries, watermarks, missing).Ok?
    requires var e := entries[i];
             && EndsWith(e.name, ".json") && e.content.Decoded? && e.content.doc.JObj?
             && CategoryOf(e.name).Some?
             && !IsNewerThanLatest(e.content.doc.fields, watermarks[CategoryOf(e.name).value.Key()])
    ensures var b := LoadJsonFiles(entries, watermarks, missing).value;
            && entries[i].name !in Names(b.accepted)
            && entries[i].name !in Names(b.archived)
            && (forall er :: er in b.errors ==> er.filename != entries[i].name)
            && (entries[i].name in b.missingSession <==> entries[i].name in missing)
  {
    var b := LoadJsonFiles(entries, watermarks, missing).value;
    var w := Cutoffs(watermarks["bills"], watermarks["vote_events"], watermarks["events"]);
    var name := entries[i].name;
    assert !Passes(entries[i], w);
    if name in Names(b.accepted) {
      var p :| p in b.accepted && p.0 == name;
      AcceptedMembership(entries, w, p);
    }
    if name in Names(b.archived) {
      var p :| p in b.archived && p.0 == name;
      EventFilesMembership(b.accepted, p);
    }
    forall er | er in b.errors
      ensures er.filename != name
    {
      ErrorsMembership(entries, er);
    }
  }

  // ---- Examples ------------------------------------------------------------

  /** An accepted `eventX.json` passes the events filter but, lacking the
      `event_` prefix, is not archived. */
  lemma EventWithoutUnderscoreIsNotArchived()
    ensures var doc := JObj(map[]);
            LoadJsonFiles([Entry("eventX.json", Decoded(doc))], DefaultWatermarks, {"eventX.json"})
            == Ok(Batch([("eventX.json", doc)], [], [], {"eventX.json"}))
  {
    var doc := JObj(map[]);
    var entries := [Entry("eventX.json", Decoded(doc))];
    DiffersFromPrefix("eventX.json", "bill", 0);
    DiffersFromPrefix("eventX.json", "vote_event", 0);
    DiffersFromPrefix("eventX.json", "event_", 5);
    assert "eventX.json"[..5] == "event";
    assert EndsWith("eventX.json", ".json");
    assert Passes(entries[0], Cutoffs(Some(Epoch), Some(Epoch), Some(Epoch)));
    assert entries[..0] == [];
  }

  /** `a.json` and `c.json` carry no category prefix. */
  lemma SampleNamesUncategorised()
    ensures CategoryOf("a.json").None? && CategoryOf("c.json").None?
    ensures !StartsWith("a.json", "event_") && !StartsWith("c.json", "event_")
    ensures EndsWith("a.json", ".json") && EndsWith("b.json", ".json") && EndsWith("c.json", ".json")
  {
    DiffersFromPrefix("a.json", "bill", 0);
    DiffersFromPrefix("a.json", "vote_event", 0);
    DiffersFromPrefix("a.json", "event", 0);
    DiffersFromPrefix("a.json", "event_", 0);
    DiffersFromPrefix("c.json", "bill", 0);
    DiffersFromPrefix("c.json", "vote_event", 0);
    DiffersFromPrefix("c.json", "event", 0);
    DiffersFromPrefix("c.json", "event_", 0);
  }

  /** The reference lists for a listing of two uncategorised documents with
      an undecodable file between them. */
  lemma SampleReference(a: Json, c: Json, w: Cutoffs)
    ensures var entries := [Entry("a.json", Decoded(a)), Entry("b.json", Undecodable("{oops")), Entry("c.json", Decoded(c))];
            && AcceptedOf(entries, w) == [("a.json", a), ("c.json", c)]
            && ErrorsOf(entries) == [InvalidJson("b.json", "{oops")]
            && (forall i :: 0 <= i < |entries| ==> !Raises(Intended, entries[i]))
  {
    var entries := [Entry("a.json", Decoded(a)), Entry("b.json", Undecodable("{oops")), Entry("c.json", Decoded(c))];
    SampleNamesUncategorised();
    assert entries[..2][..1] == entries[..1];
    assert entries[..1][..0] == [];
    assert Passes(entries[0], w) && !Passes(entries[1], w) && Passes(entries[2], w);
    assert AcceptedOf(entries[..1], w) == [("a.json", a)];
    assert AcceptedOf(entries[..2], w) == [("a.json", a)];
    assert ErrorsOf(entries[..1]) == [];
    assert ErrorsOf(entries[..2]) == [InvalidJson("b.json", "{oops")];
  }

  /** A malformed file among two well-formed ones gives one error record and
      two accepted documents in listing order, whatever the watermarks. */
  lemma MalformedFileDoesNotStopTheBatch(a: Json, c: Json, watermarks: Watermarks, missing: set<string>)
    requires "bills" in watermarks && "vote_events" in watermarks && "events" in watermarks
    ensures var entries := [Entry("a.json", Decoded(a)), Entry("b.json", Undecodable("{oops")), Entry("c.json", Decoded(c))];
            LoadJsonFiles(entries, watermarks, missing)
            == Ok(Batch([("a.json", a), ("c.json", c)], [InvalidJson("b.json", "{oops")], [], missing))
  {
    var entries := [Entry("a.json", Decoded(a)), Entry("b.json", Undecodable("{oops")), Entry("c.json", Decoded(c))];
    var w := Cutoffs(watermarks["bills"], watermarks["vote_events"], watermarks["events"]);
    SampleReference(a, c, w);
    var accepted := [("a.json", a), ("c.json", c)];
    NoEventFiles(accepted);
    var r := LoadJsonFiles(entries, watermarks, missing);
    assert r.Ok?;
    assert r.value.accepted == accepted;
    assert r.value.errors == [InvalidJson("b.json", "{oops")];
    assert r.value.archived == [];
    assert Names([]) == {};
    assert r.value.missingSession == missing;
  }

  /** Neither `a.json` nor `c.json` is an event file. */
  lemma NoEventFiles(accepted: seq<(string, Json)>)
    requires |accepted| == 2 && accepted[0].0 == "a.json" && accepted[1].0 == "c.json"
    ensures EventFiles(accepted) == []
  {
    SampleNamesUncategorised();
    assert EventFiles(accepted[..1]) == [] by {
      assert accepted[..1][..0] == [];
    }
  }

  /** A watermark file naming only `bills` makes the loader raise `KeyError`
      on `vote_events`: slots are not defaulted one by one. */
  lemma PartialWatermarkFileRaises(entries: seq<Entry>, missing: set<string>)
    ensures LoadJsonFiles(entries, ReadAllLatestTimestamps(Stored(JObj(map["bills" := JStr("20240101T000000")]))), missing)
            == Err(Failure(KeyError("vote_events"), Batch([], [], [], missing)))
  {
    PartialFileIsNotCompleted();
  }

  /** The first raising index of a one-file listing. */
  lemma FirstRaiseOfOne(shape: CallShape, x: Entry)
    ensures FirstRaise(shape, [x]) == if Raises(shape, x) then 0 else 1
  {
    assert [x][..0] == [];
  }

  /** The first raising index of a two-file listing whose first file does
      not raise. */
  lemma FirstRaiseOfPair(shape: CallShape, x: Entry, y: Entry)
    requires !Raises(shape, x)
    ensures FirstRaise(shape, [x, y]) == if Raises(shape, y) then 1 else 2
  {
    assert [x, y][..1] == [x];
    FirstRaiseOfOne(shape, x);
  }

  /** The reference outputs of a one-file listing whose file is accepted. */
  lemma ReferenceOfAccepted(x: Entry, w: Cutoffs, missing: set<string>)
    requires Passes(x, w)
    ensures var p := (x.name, x.content.doc);
            var archive := StartsWith(x.name, "event_");
            Reference([x], w, missing)
            == Batch([p], [], if archive then [p] else [], if archive then missing - {x.name} else missing)
  {
    var p := (x.name, x.content.doc);
    assert [x][..0] == [];
    assert AcceptedOf([x], w) == AcceptedOf([], w) + [p];
    assert ErrorsOf([x]) == ErrorsOf([]) + [];
    assert [p][..0] == [];
    if StartsWith(x.name, "event_") {
      assert EventFiles([p]) == EventFiles([]) + [p];
      assert Names([p]) == {x.name};
    } else {
      assert EventFiles([p]) == EventFiles([]) + [];
      assert Names([]) == {};
      assert missing - {} == missing;
    }
  }

  /** The reference outputs of a one-file listing whose file is not
      accepted: at most its `invalid_json` record. */
  lemma ReferenceOfRejected(x: Entry, w: Cutoffs, missing: set<string>)
    requires !Passes(x, w)
    ensures Reference([x], w, missing)
            == Batch([], if EndsWith(x.name, ".json") && x.content.Undecodable? then [InvalidJson(x.name, x.content.raw)] else [], [], missing)
  {
    assert [x][..0] == [];
    assert AcceptedOf([x], w) == [];
    assert ErrorsOf([x]) == ErrorsOf([]) + (if EndsWith(x.name, ".json") && x.content.Undecodable? then [InvalidJson(x.name, x.content.raw)] else []);
    assert EventFiles([]) == [];
    assert Names([]) == {};
    assert missing - {} == missing;
  }

  /** The categories of `event_1.json` and `bill_1.json`. */
  lemma EventAndBillNames()
    ensures CategoryOf("event_1.json") == Some(Events) && StartsWith("event_1.json", "event_")
    ensures CategoryOf("bill_1.json") == Some(Bills)
    ensures EndsWith("event_1.json", ".json") && EndsWith("bill_1.json", ".json")
  {
    DiffersFromPrefix("event_1.json", "bill", 0);
    DiffersFromPrefix("event_1.json", "vote_event", 0);
    assert "event_1.json"[..5] == "event" && "event_1.json"[..6] == "event_";
    assert "bill_1.json"[..4] == "bill";
  }

  /** An archived `event_*` file stays archived, and its `missing_session`
      file stays removed, when a later categorised file holds a JSON array
      and ends the run with `AttributeError`. */
  lemma CrashKeepsEarlierArchive(watermarks: Watermarks, missing: set<string>)
    requires "bills" in watermarks && "vote_events" in watermarks && "events" in watermarks
    ensures var doc := JObj(map[]);
            LoadJsonFiles([Entry("event_1.json", Decoded(doc)), Entry("bill_1.json", Decoded(JArr([])))], watermarks, missing)
            == Err(Failure(AttributeError("bill_1.json"),
                           Batch([("event_1.json", doc)], [], [("event_1.json", doc)], missing - {"event_1.json"})))
  {
    var doc := JObj(map[]);
    var x := Entry("event_1.json", Decoded(doc));
    var y := Entry("bill_1.json", Decoded(JArr([])));
    var w := Cutoffs(watermarks["bills"], watermarks["vote_events"], watermarks["events"]);
    EventAndBillNames();
    IsNewerWithoutDate(map[], w.For(Events));
    assert Passes(x, w) && !Raises(Intended, x) && Raises(Intended, y);
    FirstRaiseOfPair(Intended, x, y);
    assert [x, y][..1] == [x];
    ReferenceOfAccepted(x, w, missing);
  }

  // ---- The three-argument call ---------------------------------------------

  /** With the source as written, a single fresh bill file ends the run with
      `TypeError`; with the intended call it is accepted. */
  lemma BillFileAsWrittenVersusIntended()
    ensures var doc := JObj(map[]);
            var entries := [Entry("bill_1.json", Decoded(doc))];
            && LoadJsonFilesAsWritten(entries, DefaultWatermarks, {}) == Err(Failure(TypeError("bill_1.json"), Batch([], [], [], {})))
            && LoadJsonFiles(entries, DefaultWatermarks, {}) == Ok(Batch([("bill_1.json", doc)], [], [], {}))
  {
    assert "bills" in DefaultWatermarks && "vote_events" in DefaultWatermarks && "events" in DefaultWatermarks;
    BillFileOutcomes(DefaultWatermarks, {});
  }

  /** A bill file without a date, alone in the folder, under any complete
      watermark table. */
  lemma BillFileOutcomes(watermarks: Watermarks, missing: set<string>)
    requires "bills" in watermarks && "vote_events" in watermarks && "events" in watermarks
    ensures var doc := JObj(map[]);
            var entries := [Entry("bill_1.json", Decoded(doc))];
            && LoadJsonFilesAsWritten(entries, watermarks, missing) == Err(Failure(TypeError("bill_1.json"), Batch([], [], [], missing)))
            && LoadJsonFiles(entries, watermarks, missing) == Ok(Batch([("bill_1.json", doc)], [], [], missing))
  {
    var doc := JObj(map[]);
    var x := Entry("bill_1.json", Decoded(doc));
    var w := Cutoffs(watermarks["bills"], watermarks["vote_events"], watermarks["events"]);
    assert "bill_1.json"[..4] == "bill";
    assert EndsWith("bill_1.json", ".json");
    DiffersFromPrefix("bill_1.json", "event_", 0);
    IsNewerWithoutDate(map[], w.For(Bills));
    assert Passes(x, w) && Raises(AsWritten, x) && !Raises(Intended, x);
    FirstRaiseOfOne(AsWritten, x);
    FirstRaiseOfOne(Intended, x);
    assert [x][..0] == [];
    assert Names([]) == {} && missing - {} == missing;
    ReferenceOfAccepted(x, w, missing);
  }

  /** As written, an undecodable file read before a bill file keeps its
      `invalid_json` record when the bill file ends the run with
      `TypeError`. */
  lemma CrashKeepsEarlierRecords(raw: string, doc: Json, watermarks: Watermarks, missing: set<string>)
    requires "bills" in watermarks && "vote_events" in watermarks && "events" in watermarks
    ensures LoadJsonFilesAsWritten([Entry("b.json", Undecodable(raw)), Entry("bill_1.json", Decoded(doc))], watermarks, missing)
            == Err(Failure(TypeError("bill_1.json"), Batch([], [InvalidJson("b.json", raw)], [], missing)))
  {
    var x := Entry("b.json", Undecodable(raw));
    var y := Entry("bill_1.json", Decoded(doc));
    var w := Cutoffs(watermarks["bills"], watermarks["vote_events"], watermarks["events"]);
    assert "bill_1.json"[..4] == "bill";
    assert EndsWith("b.json", ".json") && EndsWith("bill_1.json", ".json");
    assert !Passes(x, w) && !Raises(AsWritten, x) && Raises(AsWritten, y);
    FirstRaiseOfPair(AsWritten, x, y);
    assert [x, y][..1] == [x];
    ReferenceOfRejected(x, w, missing);
  }
}
