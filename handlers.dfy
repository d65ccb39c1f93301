/**
 * The two JSON routes. `check_symptoms` checks the request, asks the model, parses its
 * answer, puts a record in front of the history file and answers with the parsed
 * sections; `get_history` answers with what the history file holds.
 *
 * The model call is a parameter (`ask`), as is the text Python's f-string makes of a
 * number, list or dict (`show`) and the current time (`now`). The history file is passed
 * in and the file after the request is returned.
 */
module Handlers {
  import opened Wrappers
  import opened Json
  import opened Sections
  import opened Prompt
  import opened Validation
  import opened History

  /** What a route sends back. */
  datatype Response =
    /** `jsonify(body)` with this status */
    | JsonReply(status: int, body: Json)
    /** an exception escaped the route; Flask answers with its own status 500 page */
    | ServerError

  /** The outcome of `model.generate_content(prompt).text`: the answer text, or an exception. */
  datatype Reply = Answer(text: string) | Failed

  const ProcessingErrorMessage: string := "An error occurred while processing your request."

  /**
   * How an f-string writes a decoded value: a str as it is, `True`, `False` and `None` by
   * name, and anything else as `show` writes it.
   */
  function Formatted(v: Json, show: Json -> string): (r: string)
    ensures v.JStr? ==> r == v.s
    ensures !v.JStr? && !v.JBool? && !v.JNull? ==> r == show(v)
    ensures v.JBool? ==> r == (if v.b then "True" else "False")
    ensures v.JNull? ==> r == "None"
  {
    match v
    case JStr(s) => s
    case JBool(b) => if b then "True" else "False"
    case JNull => "None"
    case _ => show(v)
  }

  /** The prompt for an accepted request. */
  function RequestPrompt(symptoms: string, age: Json, gender: Json, show: Json -> string): string
  {
    BuildPrompt(Formatted(age, show), Formatted(gender, show), symptoms)
  }

  /**
   * `check_symptoms`: the checks first; a request turned away leaves the file as it was.
   * An accepted request asks the model; when the model fails, or the file cannot be read
   * or does not hold a list, the answer is the processing error and the file is unchanged.
   * Otherwise the file becomes the record of this analysis followed by the records it held,
   * and the answer is the parsed sections.
   */
  method CheckSymptoms(configured: bool, data: Json, stored: Stored,
                       ask: string -> Reply, show: Json -> string, now: string)
    returns (resp: Response, saved: Stored)
    ensures Validate(configured, data).Reject? ==>
      resp == JsonReply(Validate(configured, data).status, ErrorBody(Validate(configured, data).message))
    ensures Validate(configured, data).Crash? ==> resp == ServerError
    ensures !Validate(configured, data).Accepted? ==> saved == stored
    ensures Validate(configured, data).Accepted? ==>
      var v := Validate(configured, data);
      var reply := ask(RequestPrompt(v.symptoms, v.age, v.gender, show));
      if reply.Failed? || Loaded(stored).None? || !Loaded(stored).value.JArr? then
        resp == JsonReply(500, ErrorBody(ProcessingErrorMessage)) && saved == stored
      else
        resp == JsonReply(200, StrDict(Parse(reply.text)))
        && saved == Saved([Record(v.symptoms, v.age, v.gender, Parse(reply.text), now)] + Loaded(stored).value.items)
  {
    var verdict := Validate(configured, data);
    match verdict {
      case Reject(status, message) =>
        return JsonReply(status, ErrorBody(message)), stored;
      case Crash =>
        return ServerError, stored;
      case Accepted(symptoms, age, gender) =>
        var reply := ask(RequestPrompt(symptoms, age, gender, show));
        if reply.Failed? {
          return JsonReply(500, ErrorBody(ProcessingErrorMessage)), stored;
        }
        var analysis := ParseGeminiResponse(reply.text);
        var log := new HistoryLog();
        var ok := log.Load(stored);
        if !ok {
          return JsonReply(500, ErrorBody(ProcessingErrorMessage)), stored;
        }
        log.Prepend(Record(symptoms, age, gender, analysis, now));
        saved := log.Store();
        resp := JsonReply(200, StrDict(analysis));
    }
  }

  /**
   * `get_history`: the document the file holds, or an empty list when it is missing or
   * corrupt; a file that cannot be read for another reason makes the route raise.
   */
  function GetHistory(stored: Stored): (r: Response)
    ensures r == ServerError <==> stored.Unreadable?
    ensures stored.Missing? || stored.Corrupt? ==> r == JsonReply(200, JArr([]))
    ensures stored.Decoded? ==> r == JsonReply(200, stored.doc)
  {
    match Loaded(stored)
    case None => ServerError
    case Some(doc) => JsonReply(200, doc)
  }

  /**
   * What `get_history` shows after `check_symptoms` stores a record: that record, then
   * every record it showed before, in the same order.
   */
  lemma HistoryAfterRecord(stored: Stored, record: Json)
    requires Loaded(stored).Some? && Loaded(stored).value.JArr?
    ensures GetHistory(stored).JsonReply? && GetHistory(stored).body.JArr?
    ensures GetHistory(Saved([record] + Loaded(stored).value.items))
      == JsonReply(200, JArr([record] + GetHistory(stored).body.items))
  {
  }
}
