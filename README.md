# autodoc: a verified model of the docstring insertion engine

autodoc walks Python source files and gives every function, asynchronous function and
class that lacks a docstring one written by an AI assistant. This project models in
Dafny the engine that does this (`Runner` in `autodoc/runner.py`) and the part of the
assistant service it relies on (`AIAutodocService` in
`autodoc/services/ai_autodoc_service.py`), and proves what the engine promises.

Modules, one per concern:

- `AutodocService` (`autodoc_service.dfy`) covers the service. It models the choice of assistant id in
  `__init__`/`get_assistant_id`. It also models the reply of `generate_docstring`: the newest message of a
  `"completed"` run with every `"` and `` ` `` removed, and `""` for any other status.
  The remote assistant is a `Client` value of functions.
- `Wrappers` (`wrappers.dfy`) holds the `Option` type, the `None` of a parser that rejects its text.
- `DocText` (`doc_text.dfy`) follows `inspect.cleandoc` (Python 3.12), which `ast.get_docstring`
  applies to a docstring, step by step. The steps are `expandtabs`, `split`, `lstrip` of the
  first line, removal of the common margin, dropping of the blank lines at both ends, and
  `join`. `BlankDoc` is a direct test on the raw text, and `CleanDocEmptyIff` proves it holds
  exactly when the cleaned text is empty.
- `Syntax` (`syntax.dfy`) holds the value trees (`Node`) and the docstring test of `ast.get_docstring`
  (`HasDocstring`, through `BlankDoc`). It also defines `Document`, the
  tree one run leaves behind. `Document` is a recursive reference definition with the lemmas about placement, preservation
  and idempotence.
- `Arena` (`arena.dfy`) models the parsed tree as the parser builds it: node objects known by identity
  (`Cell`s indexed by `nat`), held by the `SyntaxTree` class whose `InsertFirst`
  performs `node.body.insert(0, ...)` in place. It also states the breadth-first walk of
  `ast.walk` as a loop invariant (`Walking`), with lemmas proving that when the queue runs
  dry the mutated objects hold exactly `Document` of the parsed tree.
- `DocstringPass` (`docstring_pass.dfy`) keeps the bookkeeping of the `add_docstring` loop: the units met, the
  units sent, and the state of the file between two nodes.
- `TextFile` (`text_file.dfy`) models an open file as a `FileBuffer` class (text and cursor) with
  `read`, `seek(0)`, `write` and `truncate`, and the files of a folder as a `FileSystem` class
  holding a map from path to text.
- `Runner` (`runner.dfy`) is the `Runner` class. `AddDocstring` is the walk loop. `FormatFile`,
  `ProcessFile`, `RunForFile`, `RunForFolder` and `RunForDirectory` (the inner loop of
  `run_for_folder`) follow the source method by method. Each is proved against a
  function of the inputs (`Augment`, `ProcessedText`, `ProcessOne`, `RunFiles`,
  `Targets`, `FolderTargets`).

Behaviour the model keeps from the code:

- `ast.walk` queues a node's children before yielding the node, so a docstring literal inserted into a unit is
  never visited itself.
- The file is rewritten from offset 0 after every insertion and truncated once at the end.
  A run that inserts nothing leaves the text unchanged, and a text that does not parse is
  left unchanged.
- A unit whose leading literal is blank after `inspect.cleandoc` counts as undocumented.
- A `Block` node keeps its child statements in `body`. Its `name` field stands for the rest
  of the node's own syntax as `ast.parse` represents it: for a definition, the whole header
  (decorators, name, arguments, return annotation, bases). Spacing, comments and quote style
  are not part of it, since the parser drops them. Units whose syntax differs outside their
  bodies are therefore different values, and so are their unparsed texts.
- A reply that is non-empty but blank is still inserted, yet it leaves its unit
  undocumented, so the next run sends that unit again (`Syntax.PendingAfterRun`).
- There is no exception handler anywhere in the runner. The first file that cannot be opened, does not
  parse or is refused by black ends the whole folder run, and later files are not
  processed. Earlier files keep their changes, and the failing file keeps what was written before
  the exception (`Runner.RunFiles`).

## Model

| member | source | states |
|---|---|---|
| AutodocService.NewService | autodoc/services/ai_autodoc_service.py:20-44 | a non-empty supplied id is kept, an empty one is replaced by the id of a newly created assistant; client and prompt are stored as given |
| AutodocService.SuppliedIdIsKept | autodoc/services/ai_autodoc_service.py:73-75 | after construction with a non-empty id, `get_assistant_id` returns exactly that id |
| AutodocService.GetAssistantId | autodoc/services/ai_autodoc_service.py:73-75 | `get_assistant_id` returns the stored id; what that id is after construction is stated by the two lemmas below |
| AutodocService.CreatedIdIsReported | autodoc/services/ai_autodoc_service.py:36-43 | without a supplied id, the service reports the id of the assistant created from the instructions |
| AutodocService.Remove | autodoc/services/ai_autodoc_service.py:66-67 | `replace(c, "")` leaves no `c`, is no longer than its input and introduces no character |
| AutodocService.RemoveAppend | autodoc/services/ai_autodoc_service.py:66-67 | removal distributes over concatenation, so kept characters stay in their order |
| AutodocService.RemoveKeepsOthers | autodoc/services/ai_autodoc_service.py:66-67 | removal drops every `c` and keeps every other character with its multiplicity |
| AutodocService.RemoveAbsent | autodoc/services/ai_autodoc_service.py:66-67 | a string without `c` is returned unchanged |
| AutodocService.Clean | autodoc/services/ai_autodoc_service.py:66-67 | the cleaned reply holds no double quote and no back-tick and is no longer than the reply |
| AutodocService.CleanKeepsOthers | autodoc/services/ai_autodoc_service.py:66-67 | cleaning keeps every other character with its multiplicity; the length drops by exactly the number of quotes and back-ticks |
| AutodocService.CleanAppend | autodoc/services/ai_autodoc_service.py:66-67 | cleaning distributes over concatenation (order of kept characters preserved) |
| AutodocService.CleanFixedIff | autodoc/services/ai_autodoc_service.py:66-67 | a string is unchanged by cleaning if and only if it holds no quote and no back-tick |
| AutodocService.CleanIdempotent | autodoc/services/ai_autodoc_service.py:66-67 | cleaning twice is cleaning once |
| AutodocService.GenerateDocstring | autodoc/services/ai_autodoc_service.py:46-71 | the reply has no delimiter; any status other than "completed" gives ""; a completed run gives at most the message's length |
| AutodocService.CompletedReplyKeepsText | autodoc/services/ai_autodoc_service.py:63-68 | a completed run's docstring is its message minus quotes and back-ticks, every other character kept |
| DocText.IsSpace | autodoc/runner.py:75 | Python's `str.isspace` on one character: the whitespace `lstrip` removes in `inspect.cleandoc` |
| DocText.ExpandTabsNoTabs | autodoc/runner.py:75 | `expandtabs` leaves no tab and never shortens the text |
| DocText.Split | autodoc/runner.py:75 | `split('\n')` gives at least one line, and no line holds a newline |
| DocText.Join | autodoc/runner.py:75 | `'\n'.join` of a non-empty list starts with its first line |
| DocText.JoinSplit | autodoc/runner.py:75 | joining the split lines with newlines gives the text back |
| DocText.LStripRemovesSpace | autodoc/runner.py:75 | `lstrip` keeps a suffix, removes only whitespace and keeps nothing that starts with whitespace |
| DocText.MarginBelow | autodoc/runner.py:75 | no line with content is indented less than the margin `cleandoc` removes |
| DocText.MarginAttained | autodoc/runner.py:75 | a margin is the indentation of some line with content |
| DocText.DropTrailingEmpty | autodoc/runner.py:75 | popping blank lines off the end keeps a prefix that ends in a non-empty line; every line dropped was empty |
| DocText.DropLeadingEmpty | autodoc/runner.py:75 | popping blank lines off the front keeps a suffix that is empty or starts with a non-empty line; every line dropped was empty |
| DocText.CleanDoc | autodoc/runner.py:75 | `inspect.cleandoc`, the cleaning `ast.get_docstring` applies; reference definition, characterised by `CleanDocEmptyIff` |
| DocText.BlankDoc | autodoc/runner.py:75 | a text whose first line is all whitespace and whose later characters are all newlines; the test the runner's docstring check uses |
| DocText.CleanDocEmptyIff | autodoc/runner.py:75 | `inspect.cleandoc` gives the empty text if and only if `BlankDoc` holds |
| DocText.ExpandTabsBlank | autodoc/runner.py:75 | expanding tabs changes neither whether a text is blank nor whether it is all newlines |
| DocText.SplitBlank | autodoc/runner.py:75 | a text is blank if and only if its first line strips to nothing and every later line is empty |
| DocText.DedentEmptyIff | autodoc/runner.py:75 | removing the margin leaves every line empty if and only if every line was empty |
| DocText.TrimmedEmptyIff | autodoc/runner.py:75 | dropping blank lines at both ends and joining gives the empty text if and only if every line is empty |
| Syntax.IsUnit | autodoc/runner.py:74 | the `isinstance` test: a function, asynchronous function or class definition |
| Syntax.NeedsDocstring | autodoc/runner.py:74-75 | a unit for which `ast.get_docstring` is falsy: the node the runner sends to the service |
| Syntax.Inserts | autodoc/runner.py:77 | the `if docstring:` test: a unit needing a docstring whose reply is non-empty, even when that reply is all whitespace |
| Syntax.HasDocstring | autodoc/runner.py:75 | `ast.get_docstring(node)` is truthy: the first statement is a string literal whose cleaned text is not empty (by `DocText.CleanDocEmptyIff`) |
| Syntax.Document | autodoc/runner.py:72-82 | the documented tree keeps every node's kind and name, and every literal as it is |
| Syntax.DocstringPlacement | autodoc/runner.py:76-78 | a unit lacking a docstring that gets a non-empty reply has it as statement 0, followed by its former body in order |
| Syntax.NoInsertionKeepsBody | autodoc/runner.py:74-77 | a node that gets no docstring (documented, not a unit, or empty reply) keeps its statements in place and its docstring state |
| Syntax.DocumentUnchangedIff | autodoc/runner.py:72-82 | a run changes the tree if and only if some unit gets a docstring |
| Syntax.PendingAfterRun | autodoc/runner.py:75-78 | after a run the units still lacking a docstring are exactly those whose reply was blank |
| Syntax.NothingPendingIsFixpoint | autodoc/runner.py:73-78 | a tree where no unit lacks a docstring is left as it is, whatever the replies |
| Syntax.SecondRunIsNoOp | autodoc/runner.py:73-78 | when no reply was blank, a second run sends nothing and leaves the documented tree as it is |
| Syntax.NewLiteralsAreReplies | autodoc/runner.py:78 | every literal of the documented tree was in the input or is a reply |
| Arena.Kids | autodoc/runner.py:73 | the children `ast.walk` queues: a node's child statements in order. `iter_child_nodes` also yields expression children such as a definition's arguments, decorators, return annotation and bases; those are part of `name` and not walked. They hold no unit, so the set and relative order of the units walked are those of `ast.walk` |
| Arena.SyntaxTree.InsertFirst | autodoc/runner.py:78 | a new literal object becomes statement 0 of the node, every other object untouched, children still newer than parents |
| Arena.InsertKeepsOrdered | autodoc/runner.py:78 | inserting a new literal object keeps every child newer than its parent |
| Arena.ExistsIffCount | autodoc/runner.py:73 | some node reachable by the walk from a node has a property if and only if the value tree counts one |
| Arena.SameTree | autodoc/runner.py:73-78 | node objects the walk has not touched carry the parsed value tree |
| Arena.WalkStart | autodoc/runner.py:72-73 | the walk invariant holds with only the root queued |
| Arena.WalkStep | autodoc/runner.py:73-80 | yielding the head of the queue, queuing its children and inserting keeps the walk invariant and shrinks what is left |
| Arena.WalkEnd | autodoc/runner.py:73-82 | when the queue is empty every reachable node was yielded and the objects hold `Document` of the parsed tree |
| DocstringPass.ProgressStart | autodoc/runner.py:72-73 | the loop invariant of `add_docstring` holds before the first node |
| DocstringPass.ProgressStep | autodoc/runner.py:73-81 | one visit keeps the loop invariant (walk, tallies, file) and decreases the work left |
| DocstringPass.ProgressEnd | autodoc/runner.py:73-82 | at the end the file starts with the text as read or the unparsed documented tree, and the tallies cover the whole tree |
| DocstringPass.UnitsEnd | autodoc/runner.py:73-76 | the units sent are exactly the examined units without a docstring; nothing is sent if and only if none is pending |
| DocstringPass.FileEnd | autodoc/runner.py:77-82 | the file starts with the original text when nothing was inserted and with the unparse of the final tree otherwise |
| TextFile.Overwrite | autodoc/runner.py:79-80 | a write at a position replaces the characters from there on and keeps any longer tail |
| TextFile.RewriteFromStart | autodoc/runner.py:79-82 | a write from offset 0 followed by truncation leaves exactly the written text |
| TextFile.FileBuffer.Open | autodoc/runner.py:120 | opening a file for update puts the cursor at the start of its text |
| TextFile.FileBuffer.Read | autodoc/runner.py:72 | `read()` returns the text from the cursor on and moves the cursor to the end |
| TextFile.FileBuffer.Rewind | autodoc/runner.py:79 | `seek(0)` moves the cursor to the start, text unchanged |
| TextFile.FileBuffer.Write | autodoc/runner.py:80 | `write(s)` overwrites from the cursor and advances it by the length of `s` |
| TextFile.FileBuffer.Truncate | autodoc/runner.py:82 | `truncate()` cuts the text at the cursor |
| Runner.ReplyFor | autodoc/runner.py:76 | `generate_docstring(node=ast.unparse(node))`: the reply for a unit is the service's reply for its unparsed text, so it depends on the unit only through `unparse` |
| Runner.EndsWithPy | autodoc/runner.py:44 | `name.endswith(".py")`, the test of both `run_for_folder` and `run_for_file`; characterised by `EndsWithPyIff` |
| Runner.EndsWithPyIff | autodoc/runner.py:57 | a path passes the ".py" test if and only if it is some stem followed by ".py" |
| Runner.Join | autodoc/runner.py:45 | `os.path.join` on POSIX; its properties are stated by `JoinParts` and `JoinKeepsSuffix` |
| Runner.JoinParts | autodoc/runner.py:45 | the joined path ends in the name; an absolute name is the whole path; a relative one follows the root with at most one separator, and a separator right before it when the root is not empty |
| Runner.Targets | autodoc/runner.py:43-45 | the paths one directory contributes; characterised by `TargetsExactly` |
| Runner.FolderTargets | autodoc/runner.py:42-45 | the paths a folder run processes, directory by directory; characterised by `FolderTargetsExactly` |
| Runner.Augment | autodoc/runner.py:72-82 | the text `add_docstring` leaves; characterised by `AugmentOutcome` |
| Runner.AugmentOutcome | autodoc/runner.py:72-82 | `add_docstring` fails exactly when the text does not parse; otherwise the text is kept when no unit gets a docstring and is the unparsed documented tree when one does |
| Runner.ProcessedText | autodoc/runner.py:120-123 | the outcome and text of processing one file's text; characterised by `ProcessedTextOutcome` |
| Runner.ProcessedTextOutcome | autodoc/runner.py:120-123 | a parse failure happens exactly when the text does not parse and leaves it unchanged; a format failure happens exactly with auto-format on when black refuses the documented text, which the file keeps; without auto-format success leaves the documented text |
| Runner.ProcessOne | autodoc/runner.py:110-123 | `process_file` on a map of files; characterised by `ProcessOneFrame` |
| Runner.ProcessOneFrame | autodoc/runner.py:120-123 | a missing path fails with `FileNotFound` exactly when it is absent and changes nothing; otherwise only that path's text changes, to what processing leaves, and no file is added or removed |
| Runner.RunFiles | autodoc/runner.py:42-45 | `process_file` on each path in turn until the first failure; characterised by `RunFilesFrame` and `RunFilesAppend` |
| Runner.JoinKeepsSuffix | autodoc/runner.py:44-45 | joining a directory in front of a name does not change whether it ends in ".py" |
| Runner.TargetsExactly | autodoc/runner.py:43-45 | a directory contributes exactly its names ending in ".py", joined to its path |
| Runner.FolderTargetsExactly | autodoc/runner.py:42-45 | a folder run processes exactly the ".py" names of every walked directory, and only Python files |
| Runner.RunFilesFrame | autodoc/runner.py:42-45 | a run touches only the paths it processes and neither adds nor removes files |
| Runner.RunFilesAppend | autodoc/runner.py:42-45 | running over two path lists is running the first and, unless it failed, the second from its result |
| Runner.NonPythonFilesUntouched | autodoc/runner.py:44 | a folder run leaves every non-Python file as it was |
| Runner.FormatterUnusedWithoutAutoFormat | autodoc/runner.py:122-123 | without auto-format the outcome is that of the docstring pass alone, independent of black |
| Runner.SecondRunKeepsText | autodoc/runner.py:60-83 | when no reply was blank and the parser reads back what was unparsed, a second run leaves the file as it is |
| Runner.InsertedLiteralsHaveNoDelimiters | autodoc/runner.py:76-78 | every literal the run adds holds no double quote and no back-tick |
| Runner.Runner.constructor | autodoc/runner.py:24-32 | the service and the auto-format flag are stored as given |
| Runner.Runner.AddDocstring | autodoc/runner.py:60-83 | fails exactly when the text does not parse, leaving the file unchanged; otherwise the file becomes the original text (no insertion) or the unparse of the documented tree; every reachable unit is examined once, and exactly those lacking a docstring are sent, none of them twice |
| Runner.Runner.Visit | autodoc/runner.py:74-81 | a unit lacking a docstring is sent; a non-empty reply is inserted as statement 0 and the unparsed tree is written over the file from offset 0, the cursor just after it; otherwise nothing changes |
| Runner.Runner.FormatFile | autodoc/runner.py:85-108 | black is called with fast off, Python 3.10, line length 120 and string normalization; its output replaces the file, and a refusal leaves the file as it was |
| Runner.Runner.ProcessFile | autodoc/runner.py:110-123 | the file ends as `ProcessOne` says: missing file, parse failure or format failure as errors; black is called if and only if auto-format is on and the text parsed |
| Runner.Runner.RunForFile | autodoc/runner.py:47-58 | a ".py" path is processed; any other path leaves every file as it was |
| Runner.Runner.RunForFolder | autodoc/runner.py:34-45 | the ".py" files of every walked directory are processed in walk order until the first failure, and the files end as `RunFiles` says |
| Runner.Runner.RunForDirectory | autodoc/runner.py:43-45 | the ".py" files of one directory are processed in listing order until the first failure |

## Left out

- The assistant API (assistant creation, threads, messages, `create_and_poll`) is network I/O. It is represented by the functions of `AutodocService.Client`: the run status and the newest message are functions of the unit's source text. Exceptions it might raise are not modelled, so `GenerateDocstring` always returns.
- The prompt template (`prompt.format(code=node)`) is not modelled. The reply is a function of the unparsed unit, so prompt formatting folds into that function.
- `ast.parse`, `ast.unparse` and `black.format_file_contents` are foreign library code. They are the functions of `Runner.Library`. A text that does not parse is the `None` of `parse`, and black's `NothingChanged`/`InvalidInput` exceptions are `FormatRejected`. The model does not assume that parsing an unparsed tree gives it back. `Runner.SecondRunKeepsText` takes this as a precondition.
- `os.walk` and real file opening are I/O. The walk is a given sequence of `(root, names)` entries in the order `os.walk` yields them. Files are a map from path to text. Permissions, encodings, newline translation and closing the file are not modelled.
- `print` of generated docstrings and of unfinished run statuses is output only.
- The command line, configuration and packaging (`autodoc/autodoc.py`, `autodoc/config/config.py`, `autodoc/clients/config_client.py`, `autodoc/config/default_consts.py`, `setup.py`) are not part of this model.
- Runner.Runner.AddDocstring: states which units are examined and sent, with no unit in either list twice, but not the breadth-first order in which `ast.walk` yields them.
- DocText.CleanDoc follows `inspect.cleandoc` as of Python 3.12 with the default tab size of 8. Its `UnicodeError` branch is not modelled, because a Dafny string is already decoded. `Syntax.HasDocstring` tests the raw literal with `BlankDoc`, which `DocText.CleanDocEmptyIff` proves equivalent to a non-empty cleaned text.
- A node's own syntax apart from its child statements (a definition's decorators, name, arguments, return annotation and bases; expressions; the context and operator objects CPython's parser shares between parents) is not split into node objects; `Syntax.Node` keeps it in `name`, as `ast.parse` represents it. Nothing in the runner looks inside it except through `ast.unparse`, and the walk over it meets no unit.
