# autodocstring, modelled in Dafny

autodocstring walks the syntax tree of a Python file and asks a language model
for a docstring for each function. It pulls the docstring out of the answer
between triple-quote markers and puts it in front of the function's body as a
constant expression statement. After every patch it rewrites the file with the
unparsed tree. The repository holds two versions of this loop:

- `autodocstring.py`, the tool. `generate_docstring` is meant to retry when an
  answer has no opening marker. As written it does not: the retry message
  names a variable that is not in scope, so it raises instead (see
  "## Findings"). With no closing marker it takes the rest of the answer.
  The `main` loop documents functions and async functions, and skips a
  function whose generation raised.
- `main.py`, the earlier script. It documents plain functions only, asks once
  per function, and patches only when both markers are present. It has no
  exception handler, so an exception from the model ends the script.

The model has six modules:

- `Wrappers` (wrappers.dfy): `Option` and `Result`.
- `Extraction` (extraction.dfy): the marker, Python's `str.find` for it, and
  the two extraction rules. `ExtractLenient` is the tool's rule, with its
  implicit close. `ExtractStrict` is the script's rule. Lemmas give each rule's
  meaning and relate the two.
- `SourceModel` (source_model.dfy): the walked tree. Each node is a `Node`
  object with a constant kind, name and source segment, and a mutable `body`.
  The tree's serialisation is the sequence of all walked bodies (`Bodies`).
  The state a loop carries is a `Run`: the bodies, the model's call counter,
  and the log of file writes.
- `Generation` (generation.dfy): the language model, seen as an oracle. It is
  a total function from the call index and the function's source to either
  text or an exception.
- `Autodocstring` (autodocstring.dfy): `generate_docstring` and the loop of
  `main`.
  - Each is a specification function: `Obtain` for one attempt, and
    `Visit`/`Drive` for one node and for the first `n` nodes.
  - Each is also an imperative method with loop invariants, proved equal to
    its function: `GenerateDocstring` and `DocumentFunctions` (via
    `VisitNode`).
  - Lemmas about the functions state the retry policy and what a run does to
    each node, to the call count and to the file.
- `DraftScript` (draft.dfy): the loop of main.py, in the same two layers:
  `DraftVisit`/`DraftDrive`, and `RunScript` (via `DraftVisitNode`). Lemmas
  contrast it with the tool.

## Model

| member | source | states |
|---|---|---|
| `Extraction.Find` | autodocstring.py:67-70 | `str.find` for the marker from a start index: the result is -1 or the lowest index at or after the start where the marker begins, and no marker begins before it |
| `Extraction.ExtractLenient` | autodocstring.py:67-74 | the tool's rule returns nothing exactly when `find` reports no opening marker; a docstring it returns is shorter than the answer by at least the marker |
| `Extraction.ExtractStrict` | main.py:32-37 | the script's rule reports a missing opening marker exactly when `find` finds none; a docstring it accepts is shorter than the answer by at least both markers |
| `Extraction.LenientSpec` | autodocstring.py:67-74 | the tool's extraction returns nothing exactly when the answer holds no marker; whatever it returns contains no marker |
| `Extraction.LenientBetweenMarkers` | autodocstring.py:67-70 | first marker at `i` and first later marker at `j`: both rules return exactly `raw[i+3..j]` |
| `Extraction.LenientImplicitClose` | autodocstring.py:71-74 | opening marker at `i` and no later marker: the tool returns `raw[i+3..]`, the script's rule reports a missing closing marker |
| `Extraction.LenientIsSlice` | autodocstring.py:74 | what the tool extracts is a contiguous slice of the answer |
| `Extraction.StrictSpec` | main.py:31-37 | the script's rule reports a missing opening marker exactly when the answer holds no marker; a docstring it accepts contains no marker |
| `Extraction.StrictAgreesWithLenient` | main.py:32-37 | when the script's rule accepts, the tool's rule returns the same text; they fail on the same answers without a marker; with no closing marker the tool still returns a suffix of the answer |
| `SourceModel.Prepend` | autodocstring.py:136-137 | the new body is one longer, starts with the docstring statement, and keeps the old statements in order |
| `SourceModel.PrependTwice` | autodocstring.py:136-137 | patching twice leaves two docstring statements in front and differs from patching once: not idempotent |
| `SourceModel.Node.Patch` | autodocstring.py:136-137 | the node's body becomes the docstring statement followed by its old body |
| `SourceModel.PatchAt` | main.py:40 | patching node `i` changes the serialised tree in entry `i` only, to the patched body |
| `Autodocstring.Obtain` | autodocstring.py:64-81 | one attempt calls the oracle at least zero and at most `tries` times |
| `Autodocstring.ObtainSpec` | autodocstring.py:64-81 | every call before the last answered without a marker; a success is the extraction from the last answer, so nothing is asked after it; an exception ends the attempt at the call that raised; the tries are exhausted exactly when `tries` calls in a row gave no marker |
| `Autodocstring.GenerateDocstring` | autodocstring.py:35-81 | the `while tries > 0` loop, including the marker it appends to an answer with no closing marker, returns the outcome and the call count that `Obtain` specifies |
| `Autodocstring.ObtainSucceedsIff` | autodocstring.py:64-79 | generation succeeds exactly when, within `tries` calls, an answer has a marker and every earlier answer was text without one |
| `Autodocstring.ObtainFirstTry` | autodocstring.py:67-75 | an answer with a marker succeeds at the first call, with exactly one call |
| `Autodocstring.ObtainNeverMarked` | autodocstring.py:76-81 | when no answer for a function has a marker, generation never succeeds |
| `Autodocstring.ObtainAsWritten` | autodocstring.py:76-81 | the code as written calls the oracle at most once |
| `Autodocstring.RetryLostAsWritten` | autodocstring.py:76-81 | an answer without a marker followed by one with a marker: as written the attempt raises after one call; the intended retry succeeds after two |
| `Autodocstring.AsWrittenAgreesOnFirstAnswer` | autodocstring.py:64-75 | the code as written and the intended retry agree when the first answer has a marker or raises |
| `Autodocstring.Visit` | autodocstring.py:127-140 | one node: only that node's body may change, the call count never drops, and the tree is written exactly when it changed |
| `Autodocstring.VisitChangesIff` | autodocstring.py:127-140 | one iteration changes the tree exactly when the node is a function or async function and a marked answer comes within the default two tries, before any raise |
| `Autodocstring.VisitOutcome` | autodocstring.py:127-137 | a node keeps its body, or it is a function or async function whose body gained one marker-free docstring in front |
| `Autodocstring.Drive` | autodocstring.py:126-140 | the loop over the first `n` nodes leaves the later nodes alone and never lowers the call count |
| `Autodocstring.DriveSettled` | autodocstring.py:126 | once a node has been visited, later iterations do not touch its body |
| `Autodocstring.DriveOutcome` | autodocstring.py:126-137 | after the loop, each node kept its body, or is a function or async function with exactly one new docstring in front |
| `Autodocstring.NeverMarkedNodeUnchanged` | autodocstring.py:130-135 | a function for which no answer has a marker keeps its body |
| `Autodocstring.MarkedNodeDocumented` | autodocstring.py:126-137 | a function whose every answer has a marker is documented, whatever happens to the nodes before it: the loop goes on past skipped nodes |
| `Autodocstring.AllDocumented` | autodocstring.py:126-137 | when every answer has a marker: one call per function, every function documented once, every other node unchanged |
| `Autodocstring.RunTwiceDoubles` | autodocstring.py:136-137 | running the tool twice on its own output puts two docstrings in front of each function |
| `Autodocstring.DiskReflectsTree` | autodocstring.py:138-140 | the file always holds the current tree: the original until the first patch, then the last write |
| `Autodocstring.VisitNode` | autodocstring.py:127-140 | one imperative iteration moves the state from `Drive` after `i` nodes to `Drive` after `i + 1` |
| `Autodocstring.DocumentFunctions` | autodocstring.py:126-140 | the loop over the walked nodes leaves the tree, the call count and the writes that `Drive` specifies |
| `DraftScript.DraftVisit` | main.py:21-45 | one node: only that node's body may change, the tree is written exactly when it changed, and nothing happens after a crash |
| `DraftScript.DraftVisitOutcome` | main.py:22-40 | a node keeps its body, or it is a plain function with one marker-free docstring in front; async functions and other nodes are passed over entirely |
| `DraftScript.DraftVisitFunction` | main.py:24-49 | a plain function costs exactly one call; the script crashes exactly when the oracle raised; the node is patched exactly when the answer has both markers; an answer without a marker changes nothing but the call count |
| `DraftScript.DraftDrive` | main.py:21-49 | the script's loop over the first `n` nodes leaves the later nodes alone |
| `DraftScript.CrashIsFinal` | main.py:24 | after an exception nothing more happens: the final state is the state at the crash |
| `DraftScript.DraftSettled` | main.py:21 | once a node has been visited, later iterations do not touch its body |
| `DraftScript.DraftOutcome` | main.py:21-40 | after the script, each node kept its body, or is a plain function with exactly one new docstring in front |
| `DraftScript.DraftOneCallEach` | main.py:22-24 | a script that did not crash called the oracle exactly once per plain function |
| `DraftScript.DraftAgreesOnClosedAnswer` | main.py:32-45 | for an answer with both markers, the script and the tool do the same to a plain function: same docstring, one call, one write |
| `DraftScript.UnclosedAnswerDiffers` | main.py:35-47 | an opening marker with no closing one: the script leaves the body alone, the tool documents the function |
| `DraftScript.DraftAgreesWithTool` | main.py:18-49 | with no async functions and an oracle whose answers always have both markers, the script and the tool produce the same tree, calls and writes, and the script does not crash |
| `DraftScript.DraftDiskReflectsTree` | main.py:43-45 | the file always holds the current tree, also after a crash, which leaves the patches made before it |
| `DraftScript.DraftVisitNode` | main.py:22-45 | one imperative iteration of the script's loop gives the state `DraftVisit` specifies |
| `DraftScript.RunScript` | main.py:18-49 | the script's loop, stopped by an exception, gives the state `DraftDrive` specifies |

## Left out

- The Gemini client, the model construction and the transport
  (`generate_content`) are replaced by the oracle. In each file the prompt
  text is fixed, so it is folded into the oracle. A response whose `.text`
  access raises counts as an oracle exception.
- dotenv, the API-key check and the argument parsing with its file-path
  checks are command-line plumbing around the core.
- `ast.parse`, `ast.walk`, `ast.get_source_segment` and `ast.unparse` are
  library internals.
  - The walk is a fixed sequence of distinct nodes: the walk queues a node's
    children before it yields the node, so a prepended statement is never
    walked.
  - The source segment is each node's constant `code`.
  - The serialisation is the sequence of the walked bodies. A nested function
    is therefore a node of its own, and its statement inside the enclosing
    body is not aliased to its body.
- Reading and writing the file are I/O. Each write is logged as one more entry
  in the `writes` sequence, holding the serialised tree, and `Disk` is the last
  entry.
- The printed progress and error messages, and the names they show, are not
  modelled. The messages of main.py and of `main` in autodocstring.py do not
  change the control flow. Those of `generate_docstring` do, as described in
  the next lines and under "## Findings".
- Autodocstring.GenerateDocstring: models the intended `generate_docstring`,
  which prints, uses up a try and asks again. As written, the message on
  line 78 raises first (`ObtainAsWritten` models that).
- Autodocstring.Visit: uses the intended retry (`Obtain`). As written, an
  answer without a marker skips the function after one call.
- Autodocstring.Drive: folds `Visit`, so it also uses the intended retry.
- Autodocstring.DocumentFunctions: is proved equal to `Drive`, so it also
  uses the intended retry.
- A syntax error when parsing the file, an invalid model name and an
  unreadable file all end the program before the loop starts.

## Findings

| source | as written | input that shows it | evidently intended | confidence | as-written member | corrected member |
|---|---|---|---|---|---|---|
| autodocstring.py:76-81 | the retry message and the final exception message read `node`, a local of `main` that `generate_docstring` cannot see, so building either message raises a name error; `main` catches it and skips the function | a first answer without `"""` and a second answer with `"""`: as written, one call and the function stays undocumented | print the message, use up one try, ask again, and raise only after `tries` answers without a marker | high, not executed | `Autodocstring.RetryLostAsWritten` | `Autodocstring.ObtainSpec` |
