/** The watermark logic of `utils/timestamp_tracker.py`: normalising a
    timestamp, the newness predicate, the "keep the maximum" update and the
    conversion of the watermark table to and from its persisted JSON form.

    The module-global `latest_timestamps` dictionary of the Python code is
    replaced by an explicit `Table` passed in and returned. */
module TimestampTracker {
  import opened Wrappers
  import opened JsonValue
  import opened Dates
  import opened Layouts

  /** The dynamically typed argument of `to_dt_obj`, and a value of the
      watermark table: a `datetime`, a `str`, `None`, or anything else
      (`truthy` records its Python truth value). */
  datatype Value = DateVal(dt: Timestamp) | StrVal(s: string) | NoneVal | OtherVal(truthy: bool)

  /** The watermark table, category name to value (`latest_timestamps`). */
  type Table = map<string, Value>

  /** Watermarks as `read_all_latest_timestamps` returns them; `None` for a
      stored value `to_dt_obj` could not resolve. */
  type Watermarks = map<string, Option<Timestamp>>

  /** The initial contents of the global table: compact strings for 1900-01-01. */
  const InitialTable: Table :=
    map["bills" := StrVal("19000101T000000"),
        "vote_events" := StrVal("19000101T000000"),
        "events" := StrVal("19000101T000000")]

  /** The watermarks used when the persisted file cannot be read. */
  const DefaultWatermarks: Watermarks :=
    map["bills" := Some(Epoch), "vote_events" := Some(Epoch), "events" := Some(Epoch)]

  /** `s.rstrip("Z")`: removes every trailing `Z`, and nothing else. */
  function StripZ(s: string): (r: string)
    ensures r <= s
    ensures |r| == 0 || r[|r| - 1] != 'Z'
    ensures forall i :: |r| <= i < |s| ==> s[i] == 'Z'
    decreases |s|
  {
    if |s| > 0 && s[|s| - 1] == 'Z' then StripZ(s[..|s| - 1]) else s
  }

  /** Stripping the `Z`s from a string that does not itself end in `Z`
      followed by any number of `Z`s gives that string back. */
  lemma {:induction false} StripZOfSuffixed(x: string, k: nat)
    requires |x| == 0 || x[|x| - 1] != 'Z'
    ensures StripZ(x + seq(k, _ => 'Z')) == x
  {
    if k == 0 {
      assert x + seq(k, _ => 'Z') == x;
    } else {
      var s := x + seq(k, _ => 'Z');
      assert s[..|s| - 1] == x + seq(k - 1, _ => 'Z');
      StripZOfSuffixed(x, k - 1);
    }
  }

  /** The parse `to_dt_obj` applies after stripping: the ISO layout when the
      text contains `-`, otherwise the compact layout, never both. */
  function ParseByDash(t: string): (r: Option<Timestamp>)
    ensures '-' in t && r.Some? ==> FormatIso(r.value) == t
    ensures '-' !in t && r.Some? ==> FormatCompact(r.value) == t
  {
    if '-' in t then ParseIso(t) else ParseCompact(t)
  }

  /** `to_dt_obj`: a `datetime` passes through unchanged; a string has its
      trailing `Z`s stripped and is parsed by `ParseByDash`; every other
      argument, and every parse failure, gives `None` (nothing is raised). */
  function ToDtObj(v: Value): (r: Option<Timestamp>)
    ensures v.DateVal? ==> r == Some(v.dt)
    ensures v.NoneVal? || v.OtherVal? ==> r == None
    ensures v.StrVal? && r.Some? ==> StripZ(v.s) == FormatIso(r.value) || StripZ(v.s) == FormatCompact(r.value)
  {
    match v
    case DateVal(dt) => Some(dt)
    case StrVal(s) => ParseByDash(StripZ(s))
    case NoneVal => None
    case OtherVal(_) => None
  }

  /** `to_dt_obj` resolves a string to `d` exactly when, once its trailing
      `Z`s are gone, it is the ISO or the compact rendering of `d`. */
  lemma ToDtObjOfString(s: string, d: Timestamp)
    ensures ToDtObj(StrVal(s)) == Some(d) <==> StripZ(s) == FormatIso(d) || StripZ(s) == FormatCompact(d)
  {
    var t := StripZ(s);
    DashSeparatesLayouts(d);
    if t == FormatIso(d) {
      ParseIsoOfFormat(d);
    } else if t == FormatCompact(d) {
      ParseCompactOfFormat(d);
    }
  }

  /** The ISO and compact renderings of a datetime, with any number of
      trailing `Z`s, both normalise back to it. */
  lemma ToDtObjRoundTrip(d: Timestamp, k: nat)
    ensures ToDtObj(StrVal(FormatIso(d) + seq(k, _ => 'Z'))) == Some(d)
    ensures ToDtObj(StrVal(FormatCompact(d) + seq(k, _ => 'Z'))) == Some(d)
  {
    StripZOfSuffixed(FormatIso(d), k);
    StripZOfSuffixed(FormatCompact(d), k);
    ToDtObjOfString(FormatIso(d) + seq(k, _ => 'Z'), d);
    ToDtObjOfString(FormatCompact(d) + seq(k, _ => 'Z'), d);
  }

  /** Both renderings of a datetime, without suffix, resolve to it. */
  lemma ToDtObjOfRendering(d: Timestamp)
    ensures ToDtObj(StrVal(FormatIso(d))) == Some(d)
    ensures ToDtObj(StrVal(FormatCompact(d))) == Some(d)
  {
    ToDtObjRoundTrip(d, 0);
    assert FormatIso(d) + seq(0, _ => 'Z') == FormatIso(d);
    assert FormatCompact(d) + seq(0, _ => 'Z') == FormatCompact(d);
  }

  /** A string containing `-` that is not an ISO rendering is not resolved,
      even if its compact reading would make sense: there is no fallback. */
  lemma ToDtObjNoFallback(s: string)
    requires '-' in StripZ(s)
    ensures ToDtObj(StrVal(s)).Some? ==> ParseIso(StripZ(s)) == ToDtObj(StrVal(s))
    ensures ParseIso(StripZ(s)).None? ==> ToDtObj(StrVal(s)).None?
  {
  }

  /** Normalising, formatting as ISO and normalising again changes nothing. */
  lemma ToDtObjIdempotent(v: Value)
    requires ToDtObj(v).Some?
    ensures ToDtObj(StrVal(FormatIso(ToDtObj(v).value))) == ToDtObj(v)
    ensures ToDtObj(DateVal(ToDtObj(v).value)) == ToDtObj(v)
  {
    ToDtObjOfRendering(ToDtObj(v).value);
  }

  /** The parse `is_newer_than_latest` applies after stripping: ISO first,
      the compact layout when ISO raises `ValueError`. Because no ISO
      rendering lacks a `-` and no compact rendering has one, it always
      agrees with `to_dt_obj`'s choice by `-`. */
  function ParseIsoThenCompact(t: string): (r: Option<Timestamp>)
    ensures r == ParseByDash(t)
  {
    var iso := ParseIso(t);
    if iso.Some? then
      assert t[4] == '-';
      iso
    else
      ParseCompact(t)
  }

  /** `content.get("start_date") or content.get("date")`. */
  function RawTimestamp(content: map<string, Json>): (raw: Json)
    ensures Truthy(Get(content, "start_date")) ==> raw == content["start_date"]
    ensures !Truthy(Get(content, "start_date")) ==> raw == Get(content, "date")
  {
    Or(Get(content, "start_date"), Get(content, "date"))
  }

  /** The datetime a document carries, as `to_dt_obj` would resolve its
      raw timestamp; `None` when it has none or it does not parse. */
  function DocumentTimestamp(content: map<string, Json>): Option<Timestamp>
  {
    var raw := RawTimestamp(content);
    if raw.JStr? then ToDtObj(StrVal(raw.s)) else None
  }

  /** `is_newer_than_latest(content, latest)`. Fail-open: a document without
      a truthy `start_date`/`date`, with a non-string value there (`rstrip`
      raises), with a value neither layout parses, or compared with a `None`
      watermark (`>` raises `TypeError`) is let through, since every exception
      after the lookup is caught. Otherwise the result is the strict
      comparison `parsed > latest`. */
  function IsNewerThanLatest(content: map<string, Json>, latest: Option<Timestamp>): (r: bool)
    ensures !r <==> latest.Some? && DocumentTimestamp(content).Some?
                    && NotAfter(DocumentTimestamp(content).value, latest.value)
  {
    var raw := RawTimestamp(content);
    if !Truthy(raw) then true
    else if !raw.JStr? then true
    else
      match ParseIsoThenCompact(StripZ(raw.s))
      case None => true
      case Some(current) =>
        if latest.None? then true else Before(latest.value, current)
  }

  /** Fail-open: no usable date field means the document is new, whatever the
      watermark. */
  lemma IsNewerWithoutDate(content: map<string, Json>, latest: Option<Timestamp>)
    requires !Truthy(Get(content, "start_date")) && !Truthy(Get(content, "date"))
    ensures IsNewerThanLatest(content, latest)
  {
  }

  /** Fail-open: a date value that parses in neither layout lets the document
      through, whatever the watermark. */
  lemma IsNewerUnparseable(content: map<string, Json>, latest: Option<Timestamp>)
    requires RawTimestamp(content).JStr?
    requires forall d: Timestamp :: StripZ(RawTimestamp(content).s) != FormatIso(d)
                                    && StripZ(RawTimestamp(content).s) != FormatCompact(d)
    ensures IsNewerThanLatest(content, latest)
  {
  }

  /** A truthy `start_date` decides alone: `date` is not consulted. */
  lemma IsNewerStartDateFirst(content: map<string, Json>, latest: Option<Timestamp>)
    requires "start_date" in content && Truthy(content["start_date"])
    ensures IsNewerThanLatest(content, latest)
            == IsNewerThanLatest(map["start_date" := content["start_date"]], latest)
  {
  }

  /** A document whose date resolves to `d` is new exactly when `d` is
      strictly later than the watermark. */
  lemma IsNewerOfDated(content: map<string, Json>, d: Timestamp, latest: Timestamp)
    requires DocumentTimestamp(content) == Some(d)
    ensures IsNewerThanLatest(content, Some(latest)) <==> Before(latest, d)
  {
    Trichotomy(d, latest);
  }

  /** A document holding only a `start_date` or only a `date` string that
      resolves to `d` is new exactly when `d` is later than the watermark. */
  lemma IsNewerOfString(key: string, s: string, d: Timestamp, latest: Timestamp)
    requires key == "start_date" || key == "date"
    requires ToDtObj(StrVal(s)) == Some(d)
    ensures IsNewerThanLatest(map[key := JStr(s)], Some(latest)) <==> Before(latest, d)
  {
    var content := map[key := JStr(s)];
    assert |StripZ(s)| >= 15;
    assert s != [];
    assert RawTimestamp(content) == JStr(s);
    IsNewerOfDated(content, d, latest);
  }

  /** The comparison is strict: a document dated exactly at the watermark is
      not new, one dated later is, in either layout. */
  lemma IsNewerStrict(d: Timestamp, latest: Timestamp)
    ensures IsNewerThanLatest(map["start_date" := JStr(FormatIso(d))], Some(latest)) <==> Before(latest, d)
    ensures IsNewerThanLatest(map["date" := JStr(FormatCompact(d))], Some(latest)) <==> Before(latest, d)
  {
    ToDtObjOfRendering(d);
    IsNewerOfString("start_date", FormatIso(d), d, latest);
    IsNewerOfString("date", FormatCompact(d), d, latest);
  }

  /** Raising the watermark can only reject more documents. */
  lemma IsNewerAntitone(content: map<string, Json>, low: Timestamp, high: Timestamp)
    requires NotAfter(low, high)
    requires IsNewerThanLatest(content, Some(high))
    ensures IsNewerThanLatest(content, Some(low))
  {
    if !IsNewerThanLatest(content, Some(low)) {
      NotAfterTransitive(DocumentTimestamp(content).value, low, high);
    }
  }

  /** `update_latest_timestamp(category, current, existing)`. Returns the new
      watermark: `existing` when `current` is absent, otherwise the later of
      the two. The table entry for `category` is overwritten with `current`
      exactly when the watermark moves; nothing else in the table changes. */
  function UpdateLatestTimestamp(category: string, current: Option<Timestamp>,
                                 existing: Option<Timestamp>, table: Table): (r: (Option<Timestamp>, Table))
    ensures current.None? ==> r.0 == existing
    ensures current.Some? && existing.None? ==> r.0 == current
    ensures current.Some? && existing.Some? ==> r.0 == Some(Max(existing.value, current.value))
    ensures r.0 == existing ==> r.1 == table
    ensures r.0 != existing ==> current.Some? && r.0 == current
                                && r.1 == table[category := DateVal(current.value)]
  {
    if current.None? then (existing, table)
    else if existing.None? || Before(existing.value, current.value) then
      (current, table[category := DateVal(current.value)])
    else (existing, table)
  }

  /** Only the given category's entry can change, and the watermark never
      goes below `existing`. */
  lemma UpdateIsLocalAndMonotone(category: string, current: Option<Timestamp>,
                                 existing: Option<Timestamp>, table: Table)
    ensures var r := UpdateLatestTimestamp(category, current, existing, table);
            && (forall k :: k in table && k != category ==> k in r.1 && r.1[k] == table[k])
            && (forall k :: k in r.1 && k != category ==> k in table)
            && (existing.Some? ==> r.0.Some? && NotAfter(existing.value, r.0.value))
            && (current.Some? ==> r.0.Some? && NotAfter(current.value, r.0.value))
  {
  }

  /** The watermark after feeding `currents` one by one to the update, each
      result becoming the next `existing`. */
  function UpdateAll(category: string, existing: Option<Timestamp>,
                     currents: seq<Option<Timestamp>>, table: Table): (r: (Option<Timestamp>, Table))
    decreases |currents|
  {
    if |currents| == 0 then (existing, table)
    else
      var step := UpdateLatestTimestamp(category, currents[0], existing, table);
      UpdateAll(category, step.0, currents[1..], step.1)
  }

  /** Repeated updates keep the maximum: the final watermark is not below the
      starting one nor any candidate, it is one of them, and it is absent only
      if all of them were. */
  lemma {:induction false} UpdateAllKeepsMaximum(category: string, existing: Option<Timestamp>,
                                                 currents: seq<Option<Timestamp>>, table: Table)
    ensures var r := UpdateAll(category, existing, currents, table).0;
            && (existing.Some? ==> r.Some? && NotAfter(existing.value, r.value))
            && (forall i :: 0 <= i < |currents| && currents[i].Some? ==> r.Some? && NotAfter(currents[i].value, r.value))
            && (r == existing || r in currents)
            && (r.None? ==> existing.None? && forall i :: 0 <= i < |currents| ==> currents[i].None?)
    decreases |currents|
  {
    if |currents| > 0 {
      var step := UpdateLatestTimestamp(category, currents[0], existing, table);
      UpdateAllKeepsMaximum(category, step.0, currents[1..], step.1);
      var r := UpdateAll(category, existing, currents, table).0;
      if existing.Some? {
        NotAfterTransitive(existing.value, step.0.value, r.value);
      }
      if currents[0].Some? {
        NotAfterTransitive(currents[0].value, step.0.value, r.value);
      }
      forall i | 1 <= i < |currents| && currents[i].Some?
        ensures r.Some? && NotAfter(currents[i].value, r.value)
      {
        assert currents[1..][i - 1] == currents[i];
      }
      if r != step.0 {
        assert r in currents[1..];
      }
    }
  }

  /** What the table holds after repeated updates: either the run never
      moved the watermark and the table is untouched, or the category's entry
      holds the final watermark and nothing else changed. With
      `UpdateAllKeepsMaximum`, the entry is then the maximum of the starting
      watermark and every candidate. */
  lemma {:induction false} UpdateAllTable(category: string, existing: Option<Timestamp>,
                                          currents: seq<Option<Timestamp>>, table: Table)
    ensures var r := UpdateAll(category, existing, currents, table);
            || (r.0 == existing && r.1 == table)
            || (r.0.Some? && r.1 == table[category := DateVal(r.0.value)])
    decreases |currents|
  {
    if |currents| > 0 {
      var step := UpdateLatestTimestamp(category, currents[0], existing, table);
      UpdateAllTable(category, step.0, currents[1..], step.1);
      var r := UpdateAll(category, existing, currents, table);
      if step.0 != existing && r.1 != step.1 {
        assert step.1[category := DateVal(r.0.value)] == table[category := DateVal(r.0.value)];
      }
    }
  }

  /** A category the run never updates is written from its initial compact
      string. Whatever the previous file held for it, the next read gives
      1900-01-01: the table is seeded with `19000101T000000`, not with what
      `read_all_latest_timestamps` returned. */
  lemma UntouchedCategoryWrittenAsEpoch(category: string, existing: Option<Timestamp>,
                                        currents: seq<Option<Timestamp>>, previous: StoredFile, k: string)
    requires k in InitialTable && k != category
    ensures var t := UpdateAll(category, existing, currents, InitialTable).1;
            var r := ReadAllLatestTimestamps(Persist(WriteLatestTimestampFile(t), previous));
            k in r && r[k] == Some(Epoch)
  {
    var t := UpdateAll(category, existing, currents, InitialTable).1;
    UpdateAllTable(category, existing, currents, InitialTable);
    InitialTableResolves();
    assert t[k] == InitialTable[k];
    assert OtherVal(true) !in t.Values by {
      forall v | v in t.Values ensures v != OtherVal(true) {
        var j :| j in t && t[j] == v;
        if j != category {
          assert t[j] == InitialTable[j];
        }
      }
    }
    assert WriteLatestTimestampFile(t).Write?;
    ReadAfterWrite(t, previous);
  }

  /** What `write_latest_timestamp_file` does with the table. */
  datatype Flush =
    | Write(contents: map<string, string>)  // the JSON object written
    | NothingToWrite                        // no value resolved: the file is left alone
    | WriteFailed                           // an exception was caught: the file is left alone

  /** The persisted watermark file as the next run finds it. */
  datatype StoredFile = Absent | Corrupt | Stored(json: Json)

  /** `write_latest_timestamp_file()` without the I/O. Each string value is
      resolved by `to_dt_obj` and each `datetime` kept; resolved values are
      rendered as ISO strings and unresolved ones dropped. A truthy value that
      is neither (no `strftime`) raises, which the function catches, so
      nothing is written. An empty result is not written either. */
  function WriteLatestTimestampFile(table: Table): (r: Flush)
    ensures r.WriteFailed? <==> OtherVal(true) in table.Values
    ensures r.NothingToWrite? <==> OtherVal(true) !in table.Values && forall k :: k in table ==> ToDtObj(table[k]).None?
    ensures r.Write? ==> forall k :: k in table ==> (k in r.contents <==> ToDtObj(table[k]).Some?)
    ensures r.Write? ==> forall k :: k in r.contents ==> k in table && ParseIso(r.contents[k]) == ToDtObj(table[k])
  {
    if OtherVal(true) in table.Values then WriteFailed
    else
      var out := map k | k in table && ToDtObj(table[k]).Some? :: FormatIso(ToDtObj(table[k]).value);
      if out == map[] then
        assert forall k :: k in table ==> ToDtObj(table[k]).None? by {
          forall k | k in table ensures ToDtObj(table[k]).None? {
            assert k !in out;
          }
        }
        NothingToWrite
      else
        assert forall k :: k in out ==> ParseIso(out[k]) == ToDtObj(table[k]) by {
          forall k | k in out ensures ParseIso(out[k]) == ToDtObj(table[k]) {
            ParseIsoOfFormat(ToDtObj(table[k]).value);
          }
        }
        Write(out)
  }

  /** The effect of a flush on the persisted file. */
  function Persist(f: Flush, previous: StoredFile): (file: StoredFile)
    ensures !f.Write? ==> file == previous
    ensures f.Write? ==> file.Stored? && file.json.JObj?
                         && file.json.fields.Keys == f.contents.Keys
                         && forall k :: k in f.contents ==> file.json.fields[k] == JStr(f.contents[k])
  {
    match f
    case Write(contents) => Stored(JObj(map k | k in contents :: JStr(contents[k])))
    case _ => previous
  }

  /** How a decoded JSON value reaches `to_dt_obj`. */
  function FromJson(j: Json): (v: Value)
    ensures j.JStr? <==> v.StrVal?
    ensures j.JStr? ==> v == StrVal(j.s)
    ensures !j.JStr? ==> ToDtObj(v).None?
  {
    match j
    case JStr(s) => StrVal(s)
    case JNull => NoneVal
    case _ => OtherVal(Truthy(j))
  }

  /** `read_all_latest_timestamps()` without the I/O. A stored JSON object
      yields one entry per truthy value, resolved by `to_dt_obj` (`None` when
      that fails); a missing, undecodable or non-object file yields the
      defaults. Keys are not completed: a file naming only `bills` yields a
      map without `vote_events` and `events`. */
  function ReadAllLatestTimestamps(file: StoredFile): (r: Watermarks)
    ensures !(file.Stored? && file.json.JObj?) ==> r == DefaultWatermarks
    ensures file.Stored? && file.json.JObj? ==>
              forall k :: k in r <==> k in file.json.fields && Truthy(file.json.fields[k])
    ensures file.Stored? && file.json.JObj? ==>
              forall k :: k in r ==> r[k] == ToDtObj(FromJson(file.json.fields[k]))
  {
    match file
    case Stored(JObj(fields)) => map k | k in fields && Truthy(fields[k]) :: ToDtObj(FromJson(fields[k]))
    case _ => DefaultWatermarks
  }

  /** Reading back what a flush wrote gives every resolvable entry of the
      table, with the same datetime, and nothing else. */
  lemma ReadAfterWrite(table: Table, previous: StoredFile)
    requires WriteLatestTimestampFile(table).Write?
    ensures var r := ReadAllLatestTimestamps(Persist(WriteLatestTimestampFile(table), previous));
            && (forall k :: k in r <==> k in table && ToDtObj(table[k]).Some?)
            && (forall k :: k in r ==> r[k] == ToDtObj(table[k]))
  {
    ReadBackContents(table, WriteLatestTimestampFile(table).contents, previous);
  }

  /** Reading back a persisted object of ISO strings, each the rendering of
      the corresponding table value. */
  lemma ReadBackContents(table: Table, contents: map<string, string>, previous: StoredFile)
    requires forall k :: k in table ==> (k in contents <==> ToDtObj(table[k]).Some?)
    requires forall k :: k in contents ==> k in table && ParseIso(contents[k]) == ToDtObj(table[k])
    ensures var r := ReadAllLatestTimestamps(Persist(Write(contents), previous));
            && (forall k :: k in r <==> k in table && ToDtObj(table[k]).Some?)
            && (forall k :: k in r ==> r[k] == ToDtObj(table[k]))
  {
    var fields := map k | k in contents :: JStr(contents[k]);
    assert Persist(Write(contents), previous) == Stored(JObj(fields));
    forall k | k in contents
      ensures Truthy(fields[k]) && ToDtObj(FromJson(fields[k])) == ToDtObj(table[k])
    {
      var d := ToDtObj(table[k]).value;
      ParseIsoExactly(contents[k], d);
      ToDtObjOfRendering(d);
    }
    var r := ReadAllLatestTimestamps(Stored(JObj(fields)));
    assert forall k :: k in r <==> k in contents;
  }

  /** A flush of the initial table writes `1900-01-01T00:00:00` for all three
      categories. */
  lemma InitialTableWritesEpoch()
    ensures var r := WriteLatestTimestampFile(InitialTable);
            && r.Write?
            && r.contents.Keys == {"bills", "vote_events", "events"}
            && forall k :: k in r.contents ==> r.contents[k] == "1900-01-01T00:00:00"
  {
    InitialTableResolves();
    WriteUniform(InitialTable, Epoch);
    EpochRenderings();
  }

  /** A table whose values all normalise to the same datetime is written as
      that datetime's ISO string under every key. */
  lemma WriteUniform(table: Table, d: Timestamp)
    requires table != map[]
    requires forall k :: k in table ==> ToDtObj(table[k]) == Some(d)
    ensures WriteLatestTimestampFile(table) == Write(map k | k in table :: FormatIso(d))
  {
    var k0 :| k0 in table;
    assert OtherVal(true) !in table.Values;
    var r := WriteLatestTimestampFile(table);
    assert r.Write?;
    forall k | k in r.contents
      ensures r.contents[k] == FormatIso(d)
    {
      ParseIsoExactly(r.contents[k], d);
    }
  }

  /** Every value of the initial table normalises to 1900-01-01. */
  lemma InitialTableResolves()
    ensures forall k :: k in InitialTable ==> ToDtObj(InitialTable[k]) == Some(Epoch)
    ensures InitialTable.Keys == {"bills", "vote_events", "events"}
  {
    assert ToDtObj(StrVal("19000101T000000")) == Some(Epoch) by {
      EpochRenderings();
      ToDtObjOfRendering(Epoch);
    }
    assert forall k :: k in InitialTable ==> InitialTable[k] == StrVal("19000101T000000");
  }

  /** `1900-01-01T00:00:00` in both layouts. */
  lemma EpochRenderings()
    ensures FormatCompact(Epoch) == "19000101T000000"
    ensures FormatIso(Epoch) == "1900-01-01T00:00:00"
  {
  }

  /** A missing or undecodable file reads as 1900-01-01 for all three
      categories. */
  lemma UnreadableFileGivesDefaults(file: StoredFile)
    requires file.Absent? || file.Corrupt?
    ensures var r := ReadAllLatestTimestamps(file);
            && r.Keys == {"bills", "vote_events", "events"}
            && r["bills"] == r["vote_events"] == r["events"] == Some(DateTime(1900, 1, 1, 0, 0, 0))
  {
  }

  /** A file naming only `bills` in the compact layout reads as 2024-01-01 for
      bills, and the other two categories are absent, not defaulted. */
  lemma PartialFileIsNotCompleted()
    ensures var r := ReadAllLatestTimestamps(Stored(JObj(map["bills" := JStr("20240101T000000")])));
            && r.Keys == {"bills"}
            && r["bills"] == Some(DateTime(2024, 1, 1, 0, 0, 0))
  {
    var raw := "20240101T000000";
    var fields := map["bills" := JStr(raw)];
    var r := ReadAllLatestTimestamps(Stored(JObj(fields)));
    assert Truthy(fields["bills"]);
    assert r["bills"] == ToDtObj(StrVal(raw));
    Jan2024Compact();
  }

  /** `20240101T000000` normalises to 2024-01-01. */
  lemma Jan2024Compact()
    ensures ToDtObj(StrVal("20240101T000000")) == Some(DateTime(2024, 1, 1, 0, 0, 0))
  {
    var d: Timestamp := DateTime(2024, 1, 1, 0, 0, 0);
    assert FormatCompact(d) == "20240101T000000";
    ToDtObjOfRendering(d);
  }
}
