/** The checkpoint file `last_indexed_id.txt`. */
module Checkpoint {
  import opened Results
  import opened Ids

  /** Python's ValueError from `int(text)`. */
  datatype LoadError = NotAnInteger(text: string)

  /** `save_last_indexed_id(id)` writes `str(id)`, and the id is a string. */
  function SavedText(id: string): (text: string)
    ensures |text| == |id|
  {
    id
  }

  predicate AllDecimal(s: string) {
    forall i :: 0 <= i < |s| ==> '0' <= s[i] <= '9'
  }

  function DecimalValue(s: string): (v: nat)
    requires AllDecimal(s)
  {
    if s == [] then 0 else DecimalValue(s[..|s| - 1]) * 10 + (s[|s| - 1] as int - '0' as int)
  }

  /** `load_last_indexed_id` as written: no file gives 0, otherwise the
      file's text is read with `int(...)`. */
  function LoadAsWritten(file: Option<string>): (r: Result<int, LoadError>)
    ensures file.None? ==> r == Success(0)
    ensures file.Some? ==> (r.Success? <==> file.value != [] && AllDecimal(file.value))
  {
    match file
    case None => Success(0)
    case Some(text) =>
      if text != [] && AllDecimal(text) then Success(DecimalValue(text))
      else Failure(NotAnInteger(text))
  }

  /** A saved id with a letter in it cannot be loaded again: the second run
      stops before its first fetch. */
  lemma ReloadAsWrittenFails(id: string, i: nat)
    requires i < |id| && !('0' <= id[i] <= '9')
    ensures LoadAsWritten(Some(SavedText(id))).Failure?
  {
    assert !AllDecimal(SavedText(id));
  }

  /** An aid such as "9g2ab3cd00" is such an id. */
  lemma ReloadAsWrittenFailsOnAid()
    ensures LoadAsWritten(Some(SavedText("9g2ab3cd00"))).Failure?
  {
    ReloadAsWrittenFails("9g2ab3cd00", 1);
  }

  /** The load the loop needs: no file is the beginning, otherwise the
      saved id itself. */
  function Load(file: Option<string>): (c: Cursor)
    ensures c.Beginning? <==> file.None?
  {
    match file
    case None => Beginning
    case Some(text) => At(text)
  }

  /** Whatever checkpoint a run saved, the next run resumes from it. */
  lemma LoadSaveRoundTrip(id: string)
    ensures Load(Some(SavedText(id))) == At(id)
  {
  }
}
