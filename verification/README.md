# QuantumCircuitSimulator core, modelled in Dafny

QuantumCircuitSimulator is a small service. It takes OpenQASM circuit text,
runs it on a simulator and reports a histogram of measurement outcomes. This
project models the service's pure logic and proves properties about it:

- **`_preprocess_qasm`** (`preprocess.dfy`, module `QasmPreprocess`). This
  is a line-oriented rewrite that moves OpenQASM 3.0 text toward 2.0. It has
  three branches, tried in order:
  - text mentioning `OPENQASM 3.0` has every stripped line rewritten;
  - text mentioning `OPENQASM 2.0` but not `include "qelib1.inc"` gets the
    include line inserted after the first version line;
  - anything else comes back unchanged.

  The model follows the code, not a real translator. For example,
  `qubit[2] q;` becomes `qreg q[2] q;`.
- **`format_counts`** (`counts.dfy`, module `Counts`). This turns the
  simulator's histogram of binary outcome labels into one keyed by decimal
  strings. The dictionary is a sequence of pairs, so insertion order and
  last-write-wins on colliding keys can be stated.
- **The exception classes** (`custom_exceptions.dfy`, module
  `CustomExceptions`; `qasm_parsing_error.dfy`, module
  `QasmParsingErrorRecord`). These cover the composed messages and the
  `to_dict` projection.

Supporting modules:
- `text.dfy` (module `Text`) models the Python `str` operations the core
  uses: `in`, `startswith`, `strip()`, `split('\n')`, `'\n'.join` and
  `replace`.
- `preprocess_proofs.dfy` (module `QasmPreprocessProofs`) holds the
  properties of `_preprocess_qasm`.
- `numerals.dfy` (module `Numerals`) models `str(n)` and `int(s, 2)`.
- `options.dfy` models Python's `None`-or-value.

## Model

| member | source | states |
|---|---|---|
| Text.StripEnds | app/main/service/quantum_circuit_service.py:64 | `strip()` never lengthens the text, and the result neither starts nor ends with whitespace |
| Text.StripSpan | app/main/service/quantum_circuit_service.py:68 | the stripped text is a slice of the input, with only whitespace cut away before and after it |
| Text.StripKeeps | app/main/service/quantum_circuit_service.py:64-70 | a marker that neither starts nor ends with whitespace, such as `OPENQASM 3.0`, still occurs after stripping |
| Text.StripIdempotent | app/main/service/quantum_circuit_service.py:64-68 | stripping an already stripped line changes nothing |
| Text.SplitLines | app/main/service/quantum_circuit_service.py:64 | `split('\n')` gives one piece more than there are line feeds, and no piece holds a line feed |
| Text.JoinSplit | app/main/service/quantum_circuit_service.py:87-92 | joining the pieces of a split with line feeds gives back the text |
| Text.SplitJoin | app/main/service/quantum_circuit_service.py:83 | splitting a join of line-feed-free lines gives back the lines |
| Text.JoinContains | app/main/service/quantum_circuit_service.py:83 | a pattern without a line feed occurs in the joined text exactly when it occurs in one of the lines |
| Text.ReplaceAllAbsent | app/main/service/quantum_circuit_service.py:76-79 | `replace` on text that does not contain the pattern returns the text unchanged |
| Text.ReplaceAllFirst | app/main/service/quantum_circuit_service.py:76-79 | `replace` works left to right without overlaps: when the first occurrence of the pattern starts after `a`, `a` is copied, the occurrence becomes the replacement, and the scan resumes after the occurrence |
| Text.ReplaceAllSingle | app/main/service/quantum_circuit_service.py:79 | a pattern whose second character occurs nowhere else in the text is replaced exactly once, everything around it kept |
| Text.ReplaceAllAvoids | app/main/service/quantum_circuit_service.py:76-79 | a replacement that cannot create an occurrence of a pattern leaves text without that pattern still without it |
| Text.ReplaceAllKeepsPrefix | app/main/service/quantum_circuit_service.py:75-76 | a leading part in which no match can start survives the replacement |
| QasmPreprocess.FirstContaining | app/main/service/quantum_circuit_service.py:88-91 | the index found is the first line containing the marker; none means no line contains it |
| QasmPreprocessProofs.RewriteLineShape | app/main/service/quantum_circuit_service.py:67-81 | a non-version line gives one line: `qubit[` lines now open with `qreg q[`, `bit[` lines with `creg c[`, and other lines without ` = measure ` are only stripped |
| QasmPreprocessProofs.RewriteQubitDeclaration | app/main/service/quantum_circuit_service.py:75-81 | a stripped `qubit[` declaration whose remainder holds no further opening, measurement or version marker becomes exactly `qreg q[` followed by the same remainder |
| QasmPreprocessProofs.RewriteBitDeclaration | app/main/service/quantum_circuit_service.py:75-81 | likewise a `bit[` declaration becomes exactly `creg c[` followed by the same remainder |
| QasmPreprocessProofs.MeasureRewrite | app/main/service/quantum_circuit_service.py:78-79 | in a text `a = measure b` with no other `=`, the ` = measure ` becomes ` measure ` and `a` and `b` are kept |
| QasmPreprocessProofs.MeasureLineRewrite | app/main/service/quantum_circuit_service.py:67-81 | a line that strips to `a = measure b` (no other `=`, no declaration, no version marker) is emitted as the single line `a measure b` |
| QasmPreprocessProofs.RewriteQubitExample | app/main/service/quantum_circuit_service.py:75-76 | `qubit[2] q;` becomes `qreg q[2] q;` |
| QasmPreprocessProofs.RewriteBitExample | app/main/service/quantum_circuit_service.py:75-76 | `bit[2] c;` becomes `creg c[2] c;` |
| QasmPreprocessProofs.RewriteMeasureExample | app/main/service/quantum_circuit_service.py:78-79 | `c[0] = measure q[0];` becomes `c[0] measure q[0];` |
| QasmPreprocessProofs.RewriteLinesCount | app/main/service/quantum_circuit_service.py:67-81 | one output line per input line, plus one more per version line |
| QasmPreprocessProofs.RewriteLinesAvoid | app/main/service/quantum_circuit_service.py:67-81 | no output line mentions `OPENQASM 3.0` |
| QasmPreprocessProofs.RewriteLinesLineFeedFree | app/main/service/quantum_circuit_service.py:67-81 | line-feed-free input lines give line-feed-free output lines |
| QasmPreprocessProofs.RewriteLinesMember | app/main/service/quantum_circuit_service.py:67-81 | every line a single input line rewrites to appears in the output |
| QasmPreprocessProofs.Version3Lines | app/main/service/quantum_circuit_service.py:61-84 | whenever `OPENQASM 3.0` occurs, whatever else does, the output's lines are the rewrites of the stripped input's lines, in order; their number is the input line count plus the number of version lines |
| QasmPreprocessProofs.Version3Output | app/main/service/quantum_circuit_service.py:61-84 | the 3.0 branch's output no longer mentions `OPENQASM 3.0`, and it mentions both `OPENQASM 2.0` and the include |
| QasmPreprocessProofs.InsertIncludeLines | app/main/service/quantum_circuit_service.py:86-92 | the output's lines are the stripped input's lines with exactly one include line inserted right after the first line mentioning `OPENQASM 2.0` |
| QasmPreprocessProofs.InsertIncludeOutput | app/main/service/quantum_circuit_service.py:86-92 | the 2.0 branch's output still does not mention `OPENQASM 3.0`, and it now contains the include |
| QasmPreprocessProofs.PreprocessFixedPoints | app/main/service/quantum_circuit_service.py:61-94 | a text comes back unchanged exactly when it lacks `OPENQASM 3.0` and either lacks `OPENQASM 2.0` or already has the include |
| QasmPreprocessProofs.PreprocessPassThroughExamples | app/main/service/quantum_circuit_service.py:94 | `""` and `"INVALID CIRCUIT"` pass through unchanged |
| QasmPreprocessProofs.PreprocessIdempotent | app/main/service/quantum_circuit_service.py:55-94 | preprocessing twice gives the same text as preprocessing once |
| Numerals.DecimalString | app/main/service/quantum_circuit_service.py:110 | `str(n)` is made of digits and has no leading zero unless it is `"0"` |
| Numerals.DecimalRoundTrip | app/main/service/quantum_circuit_service.py:110 | reading the decimal string back gives the number |
| Numerals.BinaryValueInjective | app/main/service/quantum_circuit_service.py:110 | two binary labels of the same width with the same value are the same label |
| Counts.LookupFound | app/main/service/quantum_circuit_service.py:111 | a key is found exactly when it is among the dictionary's keys, and then with a value stored under it |
| Counts.PutKeys | app/main/service/quantum_circuit_service.py:111-114 | assigning to an existing key keeps the key order; a new key goes last |
| Counts.PutLookup | app/main/service/quantum_circuit_service.py:111-114 | after an assignment the key maps to the new value and every other key is unchanged |
| Counts.FormatLabelMeaning | app/main/service/quantum_circuit_service.py:109-114 | a binary label becomes the decimal string of its value, with no leading zeros; any other label is kept as is |
| Counts.FormatCountsDict | app/main/service/quantum_circuit_service.py:103-116 | the result has distinct keys and no more entries than the input |
| Counts.FormatCountsKeys | app/main/service/quantum_circuit_service.py:108-114 | a key is in the result exactly when it is the formatted label of some input entry |
| Counts.FormatCountsOrder | app/main/service/quantum_circuit_service.py:108-114 | the result's keys come in the order of the first input entries that format to them: an overwritten key keeps the place where it was first inserted |
| Counts.FormatCountsLastWins | app/main/service/quantum_circuit_service.py:108-114 | a formatted label maps to the count of the last entry with that label |
| Counts.FormatCountsRelabels | app/main/service/quantum_circuit_service.py:108-116 | with pairwise distinct formatted labels, the result is the input relabelled entry by entry, in input order, counts unchanged |
| Counts.SameWidthLabelsStayDistinct | app/main/service/quantum_circuit_service.py:110 | distinct binary labels of one width get distinct decimal labels |
| Counts.FormatCountsConserves | app/test/e2e/test_end_to_end.py:109-119 | with same-width binary labels, the result has as many entries and the same total count (shots) as the input |
| Counts.TotalPut | app/main/service/quantum_circuit_service.py:111-114 | an assignment changes the total by the new value minus the value it overwrites |
| Counts.FormatCountsTotalBound | app/main/service/quantum_circuit_service.py:108-114 | overwrites never add shots: the result's total is at most the input's |
| Counts.FormatCountsBellExample | app/main/service/quantum_circuit_service.py:108-116 | `{"00": 512, "11": 512}` becomes `{"0": 512, "3": 512}` |
| Counts.FormatCountsCollisionExample | app/main/service/quantum_circuit_service.py:108-114 | `{"10": 3, "2": 4}` becomes `{"2": 4}`: the verbatim `"2"` overwrites the value for binary `"10"` |
| Counts.FormatCountsMergeOrderExample | app/main/service/quantum_circuit_service.py:108-114 | `{"1": 1, "0": 2, "01": 3}` becomes `{"1": 3, "0": 2}`: `"01"` overwrites the value for `"1"`, which stays first |
| CustomExceptions.RedisConnection | app/main/exceptions/custom_exceptions.py:6-10 | the error keeps host and port, and its message starts with the given message (default `Failed to connect to Redis`) |
| CustomExceptions.RedisMessageNamesAddress | app/main/exceptions/custom_exceptions.py:9 | the message is the prefix, then ` at `, the host, a colon and the port written as `str(port)` (digits, no leading zero), which reads back as the port |
| CustomExceptions.RedisMessageInjective | app/main/exceptions/custom_exceptions.py:9 | with the same prefix and host, two messages are equal exactly when the ports are |
| CustomExceptions.RedisExample | app/main/exceptions/custom_exceptions.py:6-10 | host `localhost`, port 6379 and the default text give `Failed to connect to Redis at localhost:6379` |
| CustomExceptions.TaskProcessing | app/main/exceptions/custom_exceptions.py:14-17 | the error keeps the task id, and its message starts with the given message (default `Error processing task`) |
| CustomExceptions.TaskProcessingNamesTask | app/main/exceptions/custom_exceptions.py:16 | the message is the prefix, then `: `, then exactly the task id |
| CustomExceptions.QasmParsing | app/main/exceptions/custom_exceptions.py:21-24 | the message (default `QASM parsing failed`) and the original circuit (default none) are stored verbatim |
| CustomExceptions.CircuitExecution | app/main/exceptions/custom_exceptions.py:28-30 | the message (default `Circuit execution failed`) is stored verbatim |
| CustomExceptions.QuantumTask | app/main/exceptions/custom_exceptions.py:35-37 | the message (default `An error occurred during quantum task processing`) is stored verbatim |
| CustomExceptions.TaskTimeout | app/main/exceptions/custom_exceptions.py:42-51 | the error keeps task id and timeout, belongs to the `QuantumTaskError` family, and its message starts with the given message |
| CustomExceptions.TaskTimeoutUnchanged | app/main/exceptions/custom_exceptions.py:46-51 | the message equals the given one exactly when neither the task id nor the timeout is truthy |
| CustomExceptions.TaskTimeoutParts | app/main/exceptions/custom_exceptions.py:46-50 | with a truthy task id, ` for task <id>` follows the prefix; with a truthy timeout, the message ends with ` after <n> seconds`, which reads back as the timeout, and what precedes it is exactly the prefix plus the task part (the prefix alone without a truthy task id); with no truthy timeout, the message is the prefix plus the task part, or just the prefix |
| CustomExceptions.TaskTimeoutDefaultExamples | app/main/exceptions/custom_exceptions.py:42-51 | no arguments, or an empty task id with a zero timeout, give `Quantum circuit task processing timed out` |
| CustomExceptions.TaskTimeoutFullExample | app/main/exceptions/custom_exceptions.py:46-50 | task `t1` with 30 seconds gives `... timed out for task t1 after 30 seconds` |
| QasmParsingErrorRecord.ToDict | app/main/exceptions/qasm_parsing_error.py:30-34 | the dictionary has exactly the keys `error_type`, `message` and `original_qasm`, and `error_type` is `QASMParsingError` |
| QasmParsingErrorRecord.FromDict | app/main/exceptions/qasm_parsing_error.py:30-34 | a dictionary that reads back has the three keys and names the class |
| QasmParsingErrorRecord.DictRoundTrip | app/main/exceptions/qasm_parsing_error.py:18-19 | reading the dictionary back gives the exception; `message` and `original_qasm` hold the constructor's arguments |
| QasmParsingErrorRecord.FromDictRoundTrip | app/main/exceptions/qasm_parsing_error.py:30-34 | a three-key dictionary that reads back into an exception is that exception's dictionary |
| QasmParsingErrorRecord.ToDictInjective | app/main/exceptions/qasm_parsing_error.py:30-34 | different exceptions give different dictionaries |
| QasmParsingErrorRecord.DefaultOriginalExample | app/main/exceptions/qasm_parsing_error.py:10 | built from a message alone, the exception has no original circuit and reports `None` for it |

## Left out

- `app/main/app.py` is not part of this model. It holds the web routes, the
  request shapes and the Redis connection. Its task-lifecycle handlers have
  empty bodies, so there is no behaviour to model.
- `execute_qasm`, `__init__` and `get_result_from_qasm` are left out. They
  wrap the qiskit parser and simulator, which are foreign code, and their
  exception mapping only exists around those calls.
- The `except` around `_preprocess_qasm` is left out. For a string input,
  nothing in the body raises, and the model's input is always a string.
- Logging calls are left out.
- Counts.FormatLabel: only labels made of `0` and `1` count as binary.
  `int(s, 2)` also accepts a sign, a `0b` prefix, underscores and
  surrounding whitespace; such labels are modelled as kept verbatim.
- Counts.FormatLabelMeaning: states that every binary label becomes its
  decimal string, however large. Since Python 3.11, `str()` of an integer
  with more than 4300 decimal digits raises `ValueError` by default. That
  would be a label of about 14,300 bits or more. The `except ValueError`
  then keeps the label verbatim. The model does not know the interpreter
  version or its configured limit, so it leaves this limit out.
- QasmPreprocessProofs.RewriteQubitDeclaration: gives the exact output only
  when the remainder after `qubit[` holds no further `qubit[`, `bit[`,
  ` = measure ` or version marker and ends without whitespace. For other
  declaration lines, `RewriteLineShape` states only the new opening.
- QasmPreprocessProofs.RewriteBitDeclaration: gives the exact output only
  when the remainder after `bit[` holds no further `qubit[`, `bit[`,
  ` = measure ` or version marker and ends without whitespace. For other
  declaration lines, `RewriteLineShape` states only the new opening.
- QasmPreprocessProofs.MeasureRewrite: gives the exact output only for text
  whose one `=` is the one in ` = measure `.
- QasmPreprocessProofs.MeasureLineRewrite: gives the exact output only for a
  line whose stripped text has its one `=` in ` = measure `, and that is no
  declaration and no version line. Other lines holding ` = measure ` are
  covered only by `RewriteLineShape`, which says they give one line.
- Text.Strip: the whitespace set is Python's ASCII one. `str.strip()` also
  removes Unicode whitespace.
- CustomExceptions.TaskTimeout: the timeout is a natural number, and the
  task id an optional string. Float timeouts and their rendering are not
  modelled, nor task ids of other types, which Python formats with an
  f-string whenever they are truthy. Nor is the `ValueError` that Python
  3.11 and later raise when formatting a timeout of more than 4300 decimal
  digits.
- CustomExceptions.TaskProcessing: the task id is a string. Python formats
  any value with an f-string.
- CustomExceptions.RedisConnection: host is a string and port a natural
  number. Python accepts any values and formats them with `str()`. The
  `ValueError` that Python 3.11 and later raise when formatting a port of
  more than 4300 decimal digits is not modelled.
- QasmParsingErrorRecord.QasmParsingError: the message is a string. Python
  would also accept `None` and report it in `to_dict`.
- The two `QASMParsingError` classes are modelled separately. The one the
  service raises is in `custom_exceptions.py` and has a default message but
  no `to_dict`. The one in `qasm_parsing_error.py` requires a message and has
  `to_dict`.
- Class inheritance is modelled as two family predicates on one datatype.
  The empty base class in `qunatum_circuit_error.py` has no other behaviour.
- The tests under `app/test/` are not modelled. They are HTTP clients with
  sleeps, polling and threads. Only their shot-sum expectation appears,
  as `Counts.FormatCountsConserves`.
- The response models under `app/main/models/` are data shapes with no
  behaviour.
