/**
 The stand-alone `QASMParsingError` of `qasm_parsing_error.py`, which, unlike
 its namesake among the service's exceptions, takes a required message and
 can be projected to a plain dictionary for serialisation.
 */
module QasmParsingErrorRecord {
  import opened Options

  /** The class name `to_dict` reports under `error_type`. */
  const ClassName: string := "QASMParsingError"

  const ErrorTypeKey: string := "error_type"
  const MessageKey: string := "message"
  const OriginalQasmKey: string := "original_qasm"

  /** The exception: its message, and the circuit text that failed, or
      `None` when the caller gave none. */
  datatype QasmParsingError = QasmParsingError(message: string, originalQasm: Option<string> := None)

  /** A dictionary of string keys whose values are strings or `None`. */
  type Dict = map<string, Option<string>>

  /** `to_dict()`: exactly the three keys, the class name under
      `error_type`. */
  function ToDict(e: QasmParsingError): (d: Dict)
    ensures d.Keys == {ErrorTypeKey, MessageKey, OriginalQasmKey}
    ensures d[ErrorTypeKey] == Some(ClassName)
  {
    map[ErrorTypeKey := Some(ClassName), MessageKey := Some(e.message), OriginalQasmKey := e.originalQasm]
  }

  /** The reading of such a dictionary back into an exception, when it has
      the three keys, names this class and carries a message. */
  function FromDict(d: Dict): (r: Option<QasmParsingError>)
    ensures r.Some? ==> d.Keys >= {ErrorTypeKey, MessageKey, OriginalQasmKey}
    ensures r.Some? ==> d[ErrorTypeKey] == Some(ClassName)
  {
    if ErrorTypeKey in d && MessageKey in d && OriginalQasmKey in d
       && d[ErrorTypeKey] == Some(ClassName) && d[MessageKey].Some?
    then Some(QasmParsingError(d[MessageKey].value, d[OriginalQasmKey]))
    else None
  }

  /** The dictionary keeps everything the exception holds: the message and
      the original circuit come back unchanged. */
  lemma DictRoundTrip(e: QasmParsingError)
    ensures FromDict(ToDict(e)) == Some(e)
    ensures ToDict(e)[MessageKey] == Some(e.message)
    ensures ToDict(e)[OriginalQasmKey] == e.originalQasm
  {
  }

  /** Conversely, a dictionary with exactly the three keys that reads back
      into an exception is that exception's dictionary. */
  lemma FromDictRoundTrip(d: Dict)
    requires d.Keys == {ErrorTypeKey, MessageKey, OriginalQasmKey}
    ensures FromDict(d).Some? ==> ToDict(FromDict(d).value) == d
  {
  }

  /** Distinct exceptions give distinct dictionaries. */
  lemma ToDictInjective(a: QasmParsingError, b: QasmParsingError)
    ensures ToDict(a) == ToDict(b) ==> a == b
  {
    DictRoundTrip(a);
    DictRoundTrip(b);
  }

  /** Built with a message only, the exception has no original circuit and
      reports `None` for it. */
  lemma DefaultOriginalExample()
    ensures QasmParsingError("bad gate").originalQasm == None
    ensures ToDict(QasmParsingError("bad gate")) ==
      map[ErrorTypeKey := Some(ClassName), MessageKey := Some("bad gate"), OriginalQasmKey := None]
  {
  }
}
