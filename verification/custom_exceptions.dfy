/**
 The service's exception classes and the text each one carries. Every class
 stores a message and hands it to `Exception`, so the message is also what
 `str()` of the exception gives. Three of them compose it from their
 arguments: the Redis error appends the address, the task-processing error
 appends the task id, and the timeout error appends a task part when the
 task id is truthy and then a seconds part when the timeout is truthy.

 The classes become the variants of one datatype; which family a variant
 belongs to (`QuantumCircuitError` or `QuantumTaskError`) is a predicate.
 */
module CustomExceptions {
  import opened Options
  import opened Numerals
  import opened Text

  const RedisDefault: string := "Failed to connect to Redis"
  const TaskProcessingDefault: string := "Error processing task"
  const QasmParsingDefault: string := "QASM parsing failed"
  const CircuitExecutionDefault: string := "Circuit execution failed"
  const QuantumTaskDefault: string := "An error occurred during quantum task processing"
  const TaskTimeoutDefault: string := "Quantum circuit task processing timed out"

  /** The separators the composed messages use. */
  const AtSeparator: string := " at "
  const TaskSeparator: string := ": "
  const ForTask: string := " for task "
  const After: string := " after "
  const Seconds: string := " seconds"

  /** One variant per exception class, holding the attributes the class
      sets; `message` is the composed text. */
  datatype ServiceError =
    | RedisConnectionError(host: string, port: nat, message: string)
    | TaskProcessingError(taskId: string, message: string)
    | QasmParsingError(message: string, originalQasm: Option<string>)
    | CircuitExecutionError(message: string)
    | QuantumTaskError(message: string)
    | TaskTimeoutError(timedOutTaskId: Option<string>, timeout: Option<nat>, message: string)
  {
    /** The classes deriving from `QuantumCircuitError`. */
    predicate IsQuantumCircuitError() {
      RedisConnectionError? || TaskProcessingError? || QasmParsingError? || CircuitExecutionError?
    }

    /** The classes deriving from `QuantumTaskError`. */
    predicate IsQuantumTaskError() {
      QuantumTaskError? || TaskTimeoutError?
    }
  }

  // ---------------------------------------------------------------------
  // Python truthiness of the optional timeout arguments

  /** `if task_id:` — a task id given and not empty. */
  predicate TaskIdGiven(taskId: Option<string>) {
    taskId.Some? && taskId.value != []
  }

  /** `if timeout:` — a timeout given and not zero. */
  predicate TimeoutGiven(timeout: Option<nat>) {
    timeout.Some? && timeout.value != 0
  }

  // ---------------------------------------------------------------------
  // The constructors

  /** `RedisConnectionError(host, port, message)`: the message names the
      address that could not be reached. */
  function RedisConnection(host: string, port: nat, message: string := RedisDefault): (e: ServiceError)
    ensures e.RedisConnectionError? && e.host == host && e.port == port
    ensures StartsWith(e.message, message)
    ensures e.IsQuantumCircuitError()
  {
    var m := message + AtSeparator + host + ":" + DecimalString(port);
    assert m[..|message|] == message;
    RedisConnectionError(host, port, m)
  }

  /** `TaskProcessingError(task_id, message)`: the message ends with the
      task id. */
  function TaskProcessing(taskId: string, message: string := TaskProcessingDefault): (e: ServiceError)
    ensures e.TaskProcessingError? && e.taskId == taskId
    ensures StartsWith(e.message, message)
    ensures e.IsQuantumCircuitError()
  {
    var m := message + TaskSeparator + taskId;
    assert m[..|message|] == message;
    TaskProcessingError(taskId, m)
  }

  /** `QASMParsingError(message, original_qasm)`: both stored verbatim. */
  function QasmParsing(message: string := QasmParsingDefault, originalQasm: Option<string> := None): (e: ServiceError)
    ensures e.QasmParsingError? && e.IsQuantumCircuitError()
    ensures e.message == message && e.originalQasm == originalQasm
  {
    QasmParsingError(message, originalQasm)
  }

  /** `CircuitExecutionError(message)`: the message stored verbatim. */
  function CircuitExecution(message: string := CircuitExecutionDefault): (e: ServiceError)
    ensures e.CircuitExecutionError? && e.IsQuantumCircuitError()
    ensures e.message == message
  {
    CircuitExecutionError(message)
  }

  /** `QuantumTaskError(message)`: the message stored verbatim. */
  function QuantumTask(message: string := QuantumTaskDefault): (e: ServiceError)
    ensures e.QuantumTaskError? && e.IsQuantumTaskError()
    ensures e.message == message
  {
    QuantumTaskError(message)
  }

  /** `TaskTimeoutError(task_id, timeout, message)`: the message, then the
      task part when the task id is truthy, then the seconds part when the
      timeout is truthy. */
  function TaskTimeout(taskId: Option<string> := None, timeout: Option<nat> := None,
                       message: string := TaskTimeoutDefault): (e: ServiceError)
    ensures e.TaskTimeoutError? && e.timedOutTaskId == taskId && e.timeout == timeout
    ensures e.IsQuantumTaskError() && !e.IsQuantumCircuitError()
    ensures StartsWith(e.message, message)
  {
    var withTask := if TaskIdGiven(taskId) then message + ForTask + taskId.value else message;
    var full := if TimeoutGiven(timeout) then withTask + After + DecimalString(timeout.value) + Seconds
                else withTask;
    assert withTask[..|message|] == message;
    assert full[..|message|] == message;
    TaskTimeoutError(taskId, timeout, full)
  }

  // ---------------------------------------------------------------------
  // What the composed messages let a reader recover

  /** The Redis message reads, in order: the prefix, `" at "`, the host, a
      colon and the port as a decimal numeral, which can be read back. */
  lemma RedisMessageNamesAddress(host: string, port: nat, message: string)
    ensures var m := RedisConnection(host, port, message).message;
      var k := |message| + |AtSeparator| + |host| + 1;
      k < |m| && m[..|message|] == message
      && m[|message|..|message| + |AtSeparator|] == AtSeparator
      && m[|message| + |AtSeparator|..k - 1] == host && m[k - 1] == ':'
      && m[k..] == DecimalString(port)
      && (forall j | k <= j < |m| :: IsDigit(m[j]))
      && DecimalValue(m[k..]) == port
  {
    var m := RedisConnection(host, port, message).message;
    var k := |message| + |AtSeparator| + |host| + 1;
    assert m == message + AtSeparator + host + ":" + DecimalString(port);
    assert m[k..] == DecimalString(port);
    assert m[|message|..|message| + |AtSeparator|] == AtSeparator;
    assert m[|message| + |AtSeparator|..k - 1] == host;
    DecimalRoundTrip(port);
  }

  /** Two Redis errors with the same prefix and host have the same message
      exactly when they name the same port. */
  lemma RedisMessageInjective(host: string, p: nat, q: nat, message: string)
    ensures RedisConnection(host, p, message).message == RedisConnection(host, q, message).message <==> p == q
  {
    RedisMessageNamesAddress(host, p, message);
    RedisMessageNamesAddress(host, q, message);
  }

  /** The task-processing message is the prefix, the `": "` separator and
      then the task id. */
  lemma TaskProcessingNamesTask(taskId: string, message: string)
    ensures var m := TaskProcessing(taskId, message).message;
      |message| + |TaskSeparator| <= |m| && m[..|message|] == message
      && m[|message|..|message| + |TaskSeparator|] == TaskSeparator
      && m[|message| + |TaskSeparator|..] == taskId
  {
    var m := TaskProcessing(taskId, message).message;
    assert m[|message|..|message| + |TaskSeparator|] == TaskSeparator;
  }

  /** The timeout message is the bare prefix exactly when neither the task
      id nor the timeout is truthy (`None`, `""` and `0` all count as
      absent). */
  lemma TaskTimeoutUnchanged(taskId: Option<string>, timeout: Option<nat>, message: string)
    ensures TaskTimeout(taskId, timeout, message).message == message
      <==> !TaskIdGiven(taskId) && !TimeoutGiven(timeout)
  {
    var m := TaskTimeout(taskId, timeout, message).message;
    if TaskIdGiven(taskId) || TimeoutGiven(timeout) {
      assert |m| > |message|;
    }
  }

  /** The order of the two parts: the task part, when present, comes right
      after the prefix; the seconds part, when present, ends the message,
      carries the timeout in decimal and follows exactly the prefix and the
      task part (or the prefix alone); with no seconds part, the message
      ends with the task part, or is the prefix. */
  lemma TaskTimeoutParts(taskId: Option<string>, timeout: Option<nat>, message: string)
    ensures var m := TaskTimeout(taskId, timeout, message).message;
      (TaskIdGiven(taskId) ==> StartsWith(m[|message|..], ForTask + taskId.value))
      && (TimeoutGiven(timeout) ==>
            var tail := After + DecimalString(timeout.value) + Seconds;
            |tail| <= |m| && m[|m| - |tail|..] == tail
            && m[..|m| - |tail|] == (if TaskIdGiven(taskId) then message + ForTask + taskId.value else message)
            && DecimalValue(m[|m| - |tail| + |After|..|m| - |Seconds|]) == timeout.value)
      && (!TimeoutGiven(timeout) && TaskIdGiven(taskId) ==> m == message + ForTask + taskId.value)
      && (!TimeoutGiven(timeout) && !TaskIdGiven(taskId) ==> m == message)
  {
    var m := TaskTimeout(taskId, timeout, message).message;
    var withTask := if TaskIdGiven(taskId) then message + ForTask + taskId.value else message;
    if TaskIdGiven(taskId) {
      var part := ForTask + taskId.value;
      assert m[|message|..][..|part|] == part;
    }
    if TimeoutGiven(timeout) {
      var digits := DecimalString(timeout.value);
      var tail := After + digits + Seconds;
      assert m == withTask + tail;
      assert m[|m| - |tail|..] == tail;
      assert m[..|m| - |tail|] == withTask;
      assert m[|m| - |tail| + |After|..|m| - |Seconds|] == digits;
      DecimalRoundTrip(timeout.value);
    }
  }

  /** A bare timeout error carries the default text, and so does one
      given an empty task id and a zero timeout. */
  lemma TaskTimeoutDefaultExamples()
    ensures TaskTimeout().message == "Quantum circuit task processing timed out"
    ensures TaskTimeout(Some(""), Some(0)).message == TaskTimeoutDefault
  {
  }

  /** `str(30)`. */
  lemma ThirtyDigits()
    ensures DecimalString(30) == "30"
  {
    assert DecimalString(3) == "3";
  }

  /** A timeout error naming both the task and the seconds.
      The text is a parameter pinned by `requires` so that the proof can
      split it into named parts; stated as literals inside the `ensures`, the
      same facts cost the verifier far more. */
  lemma TaskTimeoutFullExample(m: string)
    requires m == "Quantum circuit task processing timed out for task t1 after 30 seconds"
    ensures TaskTimeout(Some("t1"), Some(30)).message == m
  {
    ThirtyDigits();
    var withTask := TaskTimeoutDefault + ForTask + "t1";
    assert m == withTask + After + "30" + Seconds;
  }

  /** The Redis message for a local server on the default port.
      The text is a parameter pinned by `requires` so that the proof can
      split it into named parts; stated as literals inside the `ensures`, the
      same facts cost the verifier far more. */
  lemma RedisExample(m: string)
    requires m == "Failed to connect to Redis at localhost:6379"
    ensures RedisConnection("localhost", 6379).message == m
  {
    assert DecimalString(6379) == "6379" by {
      assert DecimalString(6) == "6";
      assert DecimalString(63) == "63";
      assert DecimalString(637) == "637";
    }
    assert m == RedisDefault + AtSeparator + "localhost" + ":" + "6379";
  }
}
