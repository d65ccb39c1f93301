/**
 * The analysis history kept in `history.json`: a JSON list of records, newest first.
 * What the file holds is given abstractly (missing, not valid JSON, unreadable for another
 * reason, or a decoded document); the handlers read it into a Python list, insert the new
 * record at the front and write the whole list back.
 */
module History {
  import opened Wrappers
  import opened Json

  /** The state of the history file as `json.load` meets it. */
  datatype Stored =
    /** `FileNotFoundError` */
    | Missing
    /** `json.JSONDecodeError`: the file does not hold one JSON document */
    | Corrupt
    /** any other failure to read the file (permissions, a directory, bytes that are not text) */
    | Unreadable
    /** the document the file holds */
    | Decoded(doc: Json)

  /**
   * The value `json.load` leaves in `history`: the decoded document, or an empty list when
   * the file is missing or corrupt. Any other failure propagates, shown here as `None`.
   */
  function Loaded(stored: Stored): (r: Option<Json>)
    ensures r.None? <==> stored.Unreadable?
    ensures stored.Missing? || stored.Corrupt? ==> r == Some(JArr([]))
    ensures stored.Decoded? ==> r == Some(stored.doc)
  {
    match stored
    case Missing => Some(JArr([]))
    case Corrupt => Some(JArr([]))
    case Unreadable => None
    case Decoded(doc) => Some(doc)
  }

  /** The file after `json.dump` of a list of records; reading it back gives the same list. */
  function Saved(entries: seq<Json>): (stored: Stored)
    ensures Loaded(stored) == Some(JArr(entries))
  {
    Decoded(JArr(entries))
  }

  /** The record `check_symptoms` keeps for one analysis. */
  function Record(symptoms: string, age: Json, gender: Json, analysis: map<string, string>, timestamp: string): (r: Json)
    ensures r.JObj? && r.fields.Keys == {"symptoms", "age", "gender", "analysis", "timestamp"}
    ensures r.fields["symptoms"] == JStr(symptoms) && r.fields["age"] == age && r.fields["gender"] == gender
    ensures r.fields["analysis"] == StrDict(analysis) && r.fields["timestamp"] == JStr(timestamp)
  {
    JObj(map["symptoms" := JStr(symptoms), "age" := age, "gender" := gender,
             "analysis" := StrDict(analysis), "timestamp" := JStr(timestamp)])
  }

  /** The history list as the handler holds it in memory between reading and writing the file. */
  class HistoryLog {
    var entries: seq<Json>

    constructor ()
      ensures entries == []
    {
      entries := [];
    }

    /**
     * Reads the file. It succeeds when what `json.load` leaves is a list, which then
     * becomes the log; on any other outcome the handler fails and the log is untouched.
     */
    method Load(stored: Stored) returns (ok: bool)
      modifies this
      ensures ok <==> Loaded(stored).Some? && Loaded(stored).value.JArr?
      ensures ok ==> entries == Loaded(stored).value.items
      ensures !ok ==> entries == old(entries)
    {
      match Loaded(stored)
      case Some(JArr(items)) =>
        entries := items;
        ok := true;
      case _ =>
        ok := false;
    }

    /** `history.insert(0, record)`: the record goes in front and the older entries follow in their order. */
    method Prepend(record: Json)
      modifies this
      ensures entries == [record] + old(entries)
      ensures |entries| == |old(entries)| + 1 && entries[0] == record
      ensures forall i :: 0 <= i < |old(entries)| ==> entries[i + 1] == old(entries)[i]
    {
      entries := [record] + entries;
    }

    /** The file after writing the log back. */
    function Store(): (stored: Stored)
      reads this
      ensures Loaded(stored) == Some(JArr(entries))
    {
      Saved(entries)
    }
  }

  /**
   * Two analyses stored one after the other, starting without a history file: reading
   * the file back lists the second record first, then the first.
   */
  method StoreTwice(first: Json, second: Json) returns (shown: Option<Json>)
    ensures shown == Some(JArr([second, first]))
  {
    var log := new HistoryLog();
    var ok := log.Load(Missing);
    log.Prepend(first);
    var stored := log.Store();
    var next := new HistoryLog();
    ok := next.Load(stored);
    next.Prepend(second);
    shown := Loaded(next.Store());
    assert [second] + ([first] + []) == [second, first];
  }
}
