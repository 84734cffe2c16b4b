# Word template engine: a verified Dafny model

This project models the core of the Lutece `wordtemplate` library. The
library takes a Word document and finds the template markers in its text:
`${expression}` interpolations and `<#...>` / `</#...>` directives. It cuts
the text runs so that each marker sits in a run of its own. It binds each
marker to an instruction element. It then replaces the text of every
interpolation run with the value its expression evaluates to. The model
covers these parts:

- the in-memory document editor, `WordService`, in `word_service.dfy`: splitting runs,
  paragraphs, tables, rows and cells; cloning runs, paragraphs, tables, rows and cell
  ranges; inserting paragraphs, tables, rows, cells and runs; adding and removing cells;
- the marker locator, `WordTemplateParser`:
  - `markers.dfy` holds the marker pattern `\$\{.*?\}|</?#.*?>` and a leftmost-first scanner for it;
  - `runs.dfy` holds the run-level closed form of `formatInstr`;
  - `template_parser.dfy` holds `formatInstr`, both `findInstr` overloads and `parse`;
- the instruction registry `InstructionService`, the interpolation manager and
  the instruction element record, in `instructions.dfy`;
- the document tree itself, in `document.dfy`:
  - runs and paragraphs are classes, because instructions hold references to runs and processing rewrites them;
  - tables, rows and cells are values whose leaves are paragraph objects;
  - `Snap*` functions read a tree off the heap as a plain value (`ElementV`, `TableV`, `RowV`, `CellV`), which is what the clone contracts speak about.

Formatting (`CTRPr`, `CTPPr`, `CTTblPr`, `CTTrPr`, `CTTcPr`) is an opaque value, `Fmt`. A
paragraph's text is the concatenation of its runs' texts. XML cursors are
positions in the parent's child list.

Two behaviours of the code worth noting; the model follows the code:
- `parse` collects the headers, then the footers, then the main body.
- `cloneRun` with `isEmpty == false` calls POI's `setText` without a position, passing the
  source's first text element (`getText(0)`). That call adds a text element after the run's
  existing text; it does not replace the old text. The model gives a run one text element
  (see "Left out"), so there the clone's text becomes its old text followed by the source's text.

## Model

| member | source | states |
|---|---|---|
| Runs.SplitRunKeepsText | src/java/fr/paris/lutece/plugins/wordtemplate/service/WordService.java:555-562 | cutting a run in two leaves the paragraph's concatenated text unchanged |
| Runs.MergeRunsKeepsText | src/java/fr/paris/lutece/plugins/wordtemplate/service/WordTemplateParser.java:207-209 | appending a run to the run before it, then removing it, leaves the paragraph text unchanged |
| Runs.IsolateRunsKeepsText | src/java/fr/paris/lutece/plugins/wordtemplate/service/WordTemplateParser.java:205-235 | isolating a marker never changes the paragraph text, so later match offsets stay valid |
| Runs.IsolateRunsIsolates | src/java/fr/paris/lutece/plugins/wordtemplate/service/WordTemplateParser.java:196-241 | after isolation, one run starts at `start`, holds exactly text[start..end] and has the formatting of the run the marker started in |
| Runs.IsolateRunsKeepsOutside | src/java/fr/paris/lutece/plugins/wordtemplate/service/WordTemplateParser.java:200-239 | runs wholly before the marker and runs wholly after it are kept unchanged and in order |
| Runs.RunsAfterExact | src/java/fr/paris/lutece/plugins/wordtemplate/service/WordTemplateParser.java:222-227 | the runs after the one holding position `end` are exactly those that start after `end` |
| TemplateParser.AppendToPrevious | src/java/fr/paris/lutece/plugins/wordtemplate/service/WordTemplateParser.java:205-210 | the merge step: run numRun's text goes at the end of run numRun-1, which keeps its formatting, and run numRun leaves the paragraph |
| TemplateParser.CutAtEnd | src/java/fr/paris/lutece/plugins/wordtemplate/service/WordTemplateParser.java:222-236 | the end step: the run holding the marker's end is cut after it, then its head is merged into the partial marker run when the marker started earlier |
| TemplateParser.FormatInstr | src/java/fr/paris/lutece/plugins/wordtemplate/service/WordTemplateParser.java:191-242 | the restart loop terminates, and the run list it leaves is exactly `IsolateRuns` of the original; the runs before the marker stay the same objects |
| Markers.CloseFrom | src/java/fr/paris/lutece/plugins/wordtemplate/service/WordTemplateParser.java:60 | the lazy `.*?` before a closing character: the first closing character, with no line terminator before it, and `None` exactly when there is none |
| Markers.MatchAtIff | src/java/fr/paris/lutece/plugins/wordtemplate/service/WordTemplateParser.java:60 | the scanner matches at a position exactly when a marker of the grammar starts there, and ends where that marker ends |
| Markers.MarkerPrefixFree | src/java/fr/paris/lutece/plugins/wordtemplate/service/WordTemplateParser.java:60 | at most one marker starts at a given position |
| Markers.FindFrom | src/java/fr/paris/lutece/plugins/wordtemplate/service/WordTemplateParser.java:165-168 | `Matcher.find()`: the leftmost match at or after the position, or `None` when no marker starts there or later |
| Markers.MatchesFromNext | src/java/fr/paris/lutece/plugins/wordtemplate/service/WordTemplateParser.java:165-168 | after a match, the next search starts at the match's end |
| Markers.MatchesSound | src/java/fr/paris/lutece/plugins/wordtemplate/service/WordTemplateParser.java:161-168 | the reported matches are markers, in increasing order, without overlap; every marker of the text starts inside one of them |
| Markers.FindInterpolationFrom | src/java/fr/paris/lutece/plugins/wordtemplate/service/instruction/InterpolationInstructionManager.java:65-70 | the search for `\$\{.*?\}` succeeds exactly when an interpolation starts at or after the position |
| Markers.FindInterpolationIff | src/java/fr/paris/lutece/plugins/wordtemplate/service/instruction/InterpolationInstructionManager.java:65-70 | the search is a substring search: true exactly on texts that contain an interpolation marker |
| TemplateParser.FirstWithText | src/java/fr/paris/lutece/plugins/wordtemplate/service/WordTemplateParser.java:170-173 | the run the code binds: the lowest-index run whose text equals the match, or none |
| TemplateParser.FirstRunWithText | src/java/fr/paris/lutece/plugins/wordtemplate/service/WordTemplateParser.java:170-179 | the binding loop as written finds exactly `FirstWithText` of the runs |
| TemplateParser.EqualMarkersAsWritten | src/java/fr/paris/lutece/plugins/wordtemplate/service/WordTemplateParser.java:170-179 | for "${a} ${a}" in runs "${a}", " ", "${a}", both matches are reported and the code binds both to run 0; the second marker's own run is run 2 |
| TemplateParser.MarkerRun | src/java/fr/paris/lutece/plugins/wordtemplate/service/WordTemplateParser.java:170-179 | the corrected binding: the first run that starts at the match's start and whose text is the match |
| TemplateParser.BindMarker | src/java/fr/paris/lutece/plugins/wordtemplate/service/WordTemplateParser.java:167-179 | one match: the marker is isolated, and the element is bound to the run starting at the match and holding exactly that marker (the corrected rule of "Findings"; see "Left out"), or is null when no manager accepts it |
| TemplateParser.EntriesDistinctRuns | src/java/fr/paris/lutece/plugins/wordtemplate/service/WordTemplateParser.java:165-180 | with the corrected binding, distinct matches are bound to distinct runs, each holding exactly its marker |
| TemplateParser.FindInstr | src/java/fr/paris/lutece/plugins/wordtemplate/service/WordTemplateParser.java:158-183 | findInstr(paragraph): one entry per match of the text captured before any split, in order, each bound by the corrected rule of "Findings" (see "Left out"); the paragraph text does not change |
| TemplateParser.TablesIgnored | src/java/fr/paris/lutece/plugins/wordtemplate/service/WordTemplateParser.java:138-147 | markers inside tables never reach the list: bodies that differ only in their tables give the same entries |
| TemplateParser.FindInstrBody | src/java/fr/paris/lutece/plugins/wordtemplate/service/WordTemplateParser.java:127-151 | findInstr(body): the entries of the body's own paragraphs, in order; table cells are searched, but what is found there is dropped |
| TemplateParser.BodiesExpressionsAppend | src/java/fr/paris/lutece/plugins/wordtemplate/service/WordTemplateParser.java:76-87 | the entries of two lists of bodies, one after the other, are the entries of the first list, then those of the second |
| TemplateParser.DocumentOrder | src/java/fr/paris/lutece/plugins/wordtemplate/service/WordTemplateParser.java:76-89 | the document's entries are those of the headers, then the footers, then the main body |
| TemplateParser.Parse | src/java/fr/paris/lutece/plugins/wordtemplate/service/WordTemplateParser.java:70-92 | the template's instructions are the entries of headers, footers and main body, in that order; every paragraph text is unchanged |
| Instructions.InstructionElement.Unset | src/java/fr/paris/lutece/plugins/wordtemplate/business/AbstractInstructionElement.java:49-51 | the no-argument constructor leaves the expression and the run unset |
| Instructions.InstructionElement.constructor | src/java/fr/paris/lutece/plugins/wordtemplate/business/AbstractInstructionElement.java:58-62 | the getters return exactly the constructor's expression and run |
| Instructions.InstructionElement.GetType | src/java/fr/paris/lutece/plugins/wordtemplate/business/AbstractInstructionElement.java:69-72 | the type is always "undefined" |
| Instructions.InstructionElement.SetExpression | src/java/fr/paris/lutece/plugins/wordtemplate/business/AbstractInstructionElement.java:89-92 | sets the expression; the run is unchanged |
| Instructions.InstructionElement.SetRun | src/java/fr/paris/lutece/plugins/wordtemplate/business/AbstractInstructionElement.java:107-110 | sets the run; the expression is unchanged |
| Instructions.IsMulti | src/java/fr/paris/lutece/plugins/wordtemplate/service/instruction/InterpolationInstructionManager.java:55-58 | always false |
| Instructions.IsOfTypeIff | src/java/fr/paris/lutece/plugins/wordtemplate/service/instruction/InterpolationInstructionManager.java:49 | the manager accepts exactly the expressions that contain `${`, then a body with no `}` and no line terminator, then `}` |
| Instructions.IsOfTypeExamples | src/java/fr/paris/lutece/plugins/wordtemplate/service/instruction/InterpolationInstructionManager.java:65-70 | "x${a}y" is accepted and "<#if c>" is rejected |
| Instructions.Manager.CreateInstruction | src/java/fr/paris/lutece/plugins/wordtemplate/service/instruction/InterpolationInstructionManager.java:79-82 | a new interpolation element whose expression and run are exactly the arguments |
| Instructions.Manager.ProcessInstruction | src/java/fr/paris/lutece/plugins/wordtemplate/service/instruction/InterpolationInstructionManager.java:90-98 | on an interpolation, the bound run's text becomes the evaluated expression and its formatting stays; any other element, or null, changes nothing; a failed evaluation changes nothing and is passed on |
| Instructions.FirstAccepting | src/java/fr/paris/lutece/plugins/wordtemplate/service/InstructionService.java:80-88 | the first manager, in list order, that accepts the expression, or none |
| Instructions.BroadcastAborted | src/java/fr/paris/lutece/plugins/wordtemplate/service/InstructionService.java:96-102 | once an evaluation has failed, the remaining managers change nothing |
| Instructions.BroadcastInterpolationOnce | src/java/fr/paris/lutece/plugins/wordtemplate/service/InstructionService.java:96-102 | broadcasting an interpolation to any number of interpolation managers is the same as processing it once |
| Instructions.BroadcastOtherKind | src/java/fr/paris/lutece/plugins/wordtemplate/service/InstructionService.java:96-102 | an element of another kind goes through every manager unchanged |
| Instructions.InstructionService.constructor | src/java/fr/paris/lutece/plugins/wordtemplate/service/InstructionService.java:52-56 | the registry holds the interpolation manager and nothing else |
| Instructions.InstructionService.CreateInstruction | src/java/fr/paris/lutece/plugins/wordtemplate/service/InstructionService.java:78-89 | the element built by the first manager that accepts the expression, or null when none does |
| Instructions.InstructionService.ProcessInstruction | src/java/fr/paris/lutece/plugins/wordtemplate/service/InstructionService.java:96-102 | every manager processes the same element, in list order, whatever its kind |
| Instructions.ServiceHolder.Init | src/java/fr/paris/lutece/plugins/wordtemplate/service/InstructionService.java:62-70 | the first call builds the registry; every later call returns that same instance |
| Instructions.InitTwice | src/java/fr/paris/lutece/plugins/wordtemplate/service/InstructionService.java:62-70 | two calls of init return the same service |
| WordService.CloneRun | src/java/fr/paris/lutece/plugins/wordtemplate/service/WordService.java:159-170 | the formatting is always copied; unless isEmpty, the source's text (its one text element) is added after the clone's own text |
| WordService.CloneParagraph | src/java/fr/paris/lutece/plugins/wordtemplate/service/WordService.java:133-148 | the formatting is copied; unless isEmpty, one clone of each source run is appended, in order, and the clone's own runs stay |
| WordService.CloneTableCell | src/java/fr/paris/lutece/plugins/wordtemplate/service/WordService.java:278-313 | the cell formatting is always copied; only when 0 <= from <= to <= size are copies of elements [from, to) inserted in order before the first paragraph, and only then is the last paragraph removed |
| WordService.CloneTableCellAll | src/java/fr/paris/lutece/plugins/wordtemplate/service/WordService.java:263-266 | the two-argument clone copies the whole source body |
| WordService.CloneIntoNewCell | src/java/fr/paris/lutece/plugins/wordtemplate/service/WordService.java:278-313 | cloning a range into a new cell gives exactly the copies of elements [from, to), in order |
| WordService.CopyKeeps | src/java/fr/paris/lutece/plugins/wordtemplate/service/WordService.java:291-309 | a copied element equals the original exactly when every table in it has a row and every row a cell |
| WordService.CloneIntoNewCellKeeps | src/java/fr/paris/lutece/plugins/wordtemplate/service/WordService.java:263-266 | a cell cloned into a new cell is the same cell exactly when it has that shape |
| WordService.CloneIntoNewRowKeeps | src/java/fr/paris/lutece/plugins/wordtemplate/service/WordService.java:227-253 | a row cloned into a one-cell row is the same row exactly when it has that shape |
| WordService.CloneIntoNewTableKeeps | src/java/fr/paris/lutece/plugins/wordtemplate/service/WordService.java:181-216 | a table cloned into a new table is the same table exactly when it has that shape |
| WordService.CloneTableRow | src/java/fr/paris/lutece/plugins/wordtemplate/service/WordService.java:227-253 | the row formatting is copied; unless isEmpty, the first source cell goes into the clone's first cell and every other cell into a new cell at the end |
| WordService.CloneTable | src/java/fr/paris/lutece/plugins/wordtemplate/service/WordService.java:181-216 | the table formatting is copied; unless isEmpty, the first source row goes into the clone's first row and every other row into a row created at the end, as wide as the first row |
| WordService.CloneBodyElement | src/java/fr/paris/lutece/plugins/wordtemplate/service/WordService.java:109-122 | a paragraph is cloned into a paragraph, a table into a table; elements of different kinds give no result and change nothing |
| WordService.InsertParagraph | src/java/fr/paris/lutece/plugins/wordtemplate/service/WordService.java:442-469 | outside [0, size] nothing changes and null is returned; otherwise a clone of the paragraph is inserted at posDest, at the end when posDest is the size |
| WordService.InsertTable | src/java/fr/paris/lutece/plugins/wordtemplate/service/WordService.java:324-352 | outside [0, size] nothing changes and null is returned; otherwise a clone of the table, made in a new one-row, one-cell table, is inserted at posDest |
| WordService.InsertRun | src/java/fr/paris/lutece/plugins/wordtemplate/service/WordService.java:494-499 | a new run with the run's formatting and text is inserted at posDest; the other runs stay, in order |
| WordService.InsertTableRow | src/java/fr/paris/lutece/plugins/wordtemplate/service/WordService.java:378-387 | a copy of the row is inserted at posDest; the other rows stay, in order |
| WordService.AddTableCell | src/java/fr/paris/lutece/plugins/wordtemplate/service/WordService.java:639-645 | a new cell holding one empty paragraph is inserted at posDest and returned |
| WordService.RemoveTableCell | src/java/fr/paris/lutece/plugins/wordtemplate/service/WordService.java:654-663 | returns true and removes exactly the cell at posDest when 0 <= posDest < size; otherwise returns false and the row is unchanged |
| WordService.RemoveAfterAdd | src/java/fr/paris/lutece/plugins/wordtemplate/service/WordService.java:639-663 | removing the cell that addTableCell added gives back the original cells |
| WordService.InsertTableCellAsWritten | src/java/fr/paris/lutece/plugins/wordtemplate/service/WordService.java:412-417 | as written: the inserted cell is always a new empty cell, whatever tableCell holds |
| WordService.InsertTableCellLosesContent | src/java/fr/paris/lutece/plugins/wordtemplate/service/WordService.java:414-415 | a cell with one paragraph "x" cloned into a new cell gives itself back, which differs from the empty cell the code inserts |
| WordService.InsertTableCell | src/java/fr/paris/lutece/plugins/wordtemplate/service/WordService.java:412-417 | as intended: a new cell at posDest, into which tableCell is cloned |
| WordService.SplitRun | src/java/fr/paris/lutece/plugins/wordtemplate/service/WordService.java:545-563 | no change unless the parent is a paragraph and 0 < pos < length; otherwise a new run with the run's formatting and text[..pos] goes just before it, and the run keeps text[pos..] |
| WordService.SplitParagraph | src/java/fr/paris/lutece/plugins/wordtemplate/service/WordService.java:522-537 | no change unless 0 < pos < number of runs; otherwise a clone is inserted just before the paragraph and keeps runs [0, pos), and the paragraph keeps runs [pos, ..) |
| WordService.SplitTable | src/java/fr/paris/lutece/plugins/wordtemplate/service/WordService.java:571-586 | no change unless 0 < pos < number of rows; otherwise a clone just before the table keeps rows [0, pos), and the table keeps rows [pos, ..) |
| WordService.SplitTableRejoins | src/java/fr/paris/lutece/plugins/wordtemplate/service/WordService.java:571-586 | the two tables' rows, read in order, are the original rows, for every table of the shape POI reproduces |
| WordService.SplitTableRow | src/java/fr/paris/lutece/plugins/wordtemplate/service/WordService.java:594-609 | no change unless 0 < pos < number of cells; otherwise a copy just before the row keeps cells [0, pos), and the row keeps cells [pos, ..) |
| WordService.SplitTableCell | src/java/fr/paris/lutece/plugins/wordtemplate/service/WordService.java:617-630 | no change unless 0 < pos < number of elements; otherwise the cell's place holds a cell with elements [0, pos), then one with [pos, ..), and the cell itself is gone |
| WordService.SplitTableCellRejoins | src/java/fr/paris/lutece/plugins/wordtemplate/service/WordService.java:617-630 | the two halves, read in order, are copies of all of the cell's elements, and are the elements themselves for a cell of the shape POI reproduces |
| WordService.CopiesSplit | src/java/fr/paris/lutece/plugins/wordtemplate/service/WordService.java:623-627 | copies of [0, pos) followed by copies of [pos, size) are the copies of the whole body |
| Document.Paragraph.RemoveRun | src/java/fr/paris/lutece/plugins/wordtemplate/service/WordTemplateParser.java:209 | removeRun removes exactly the run at pos and answers true when pos is in range; otherwise it answers false |

## Left out

- `TemplateEngineService` (Freemarker) is not part of this model. Evaluation is a function parameter `eval` that gives a text or a failure. A failure, which the library raises as an exception, is the outcome `Aborted` and stops the broadcast.
- The Java regex engine is not modelled in general. `markers.dfy` hand-writes the one pattern `\$\{.*?\}|</?#.*?>`: `.` is any character except a line terminator, `.*?` is lazy, and alternatives are tried left to right.
- Tables, rows, cells and bodies have no identity in the model. They are values, and the editing operations return the new content instead of changing the parent in place. Aliasing between a table and the body that holds it is therefore not captured. Runs and paragraphs are objects, and their updates are in place.
- POI's XML handling is not modelled. Formatting is an opaque value that is copied whole. `getParagraphText` is the concatenation of run texts. A copied table is built by the same clone functions, and a copied row by `DeepCopyRow`.
- The `XmlCursor` overloads of `insertTable`, `insertTableRow`, `insertTableCell`, `insertParagraph` and `insertRun`, and `getCursor`, are left out. They only look up a position; the index overloads are modelled.
- `removeBodyElement` and `removeElement` are left out. They delete through an XML cursor, and their effect depends on how POI keeps its lists in sync with the XML.
- `getContent` is left out. It discards the result of its recursive call, so it only concatenates the runs of top-level paragraphs, and nothing in the core uses it.
- `visitBody` is left out: its loop body is empty, so it has no effect.
- Loading and saving documents, reading the header and footer lists, and logging are left out. A document is given as its headers, footers and main body.
- WordService.InsertRun: requires 0 <= posDest <= number of runs. Outside that range POI returns no run and the source then fails on it.
- WordService.AddTableCell: requires 0 <= posDest <= number of cells, because POI throws outside that range. InsertTableRow, InsertTableCell and InsertTableCellAsWritten require the same range.
- WordService.InsertParagraph: excludes posDest 0 on an empty body, where the source reads the element before position 0 and fails. InsertTable does the same.
- WordService.CloneTableCell: requires the clone to hold a paragraph. The source fetches the clone's first paragraph before anything else and fails when there is none. CloneTable and CloneTableRow carry the same requirement for the clone's first row and first cell.
- Instructions.Manager.ProcessInstruction: requires an interpolation element to have both its run and its expression set (`Processable`). The source dereferences both.
- WordService.CloneRun: a run holds one text element, and `getText(0)` / `setText(x, 0)` are taken to read and write the whole run text. A POI run can hold several text elements (with tabs or breaks between them). The code reads a run's text with `toString()`, which covers all of them, but writes only the first one. On such a run the source leaves the other elements in place, so the clone's text is not the one the contract states.
- WordService.SplitRun: the same one-text-element assumption as WordService.CloneRun; on a run with several text elements the source's `setText(..., 0)` leaves the others in place.
- TemplateParser.AppendToPrevious: the same one-text-element assumption as WordService.CloneRun, for the merged run's `setText(..., 0)`.
- TemplateParser.FormatInstr: the same one-text-element assumption as WordService.CloneRun; the text-preservation lemmas `Runs.SplitRunKeepsText`, `Runs.MergeRunsKeepsText` and `Runs.IsolateRunsKeepsText` hold for runs of one text element only.
- Instructions.Manager.ProcessInstruction: the same one-text-element assumption as WordService.CloneRun; the evaluated value replaces only the run's first text element in the source.
- WordService.CloneParagraph: requires the clone and the source to be different paragraphs. Cloning a paragraph into itself makes the source iterate over a run list it is appending to, which fails when the paragraph has runs and does nothing when it has none; that case is not modelled.
- TemplateParser.BindMarker: binds the match to the run that starts at the match's start (`TemplateParser.MarkerRun`), the corrected rule of the first row of "Findings". The code binds it to the first run whose text equals the match (`TemplateParser.FirstRunWithText`). On a paragraph holding the same marker twice, the code binds both elements to the first of the two runs (`TemplateParser.EqualMarkersAsWritten`), and this contract does not describe it.
- TemplateParser.FindInstr: the entries it states are bound by the corrected rule, as for TemplateParser.BindMarker, not by the code's first-equal-text loop.
- TemplateParser.FindInstrBody: uses TemplateParser.FindInstr, so its paragraphs' entries are bound by the corrected rule.
- TemplateParser.Parse: uses TemplateParser.FindInstr, so the template's entries are bound by the corrected rule. Their expressions, and so the expression list this contract states, are the same under both rules.
- WordService.SplitTableRejoins: is stated only for tables in which every table has a row and every row has a cell. A new POI table already has one row holding one cell, so a clone of a table without one is not the table itself (`CloneIntoNewTableKeeps` states exactly when it is).

## Findings

| source | as written | input that shows it | evidently intended | confidence | as-written member | corrected member |
|---|---|---|---|---|---|---|
| src/java/fr/paris/lutece/plugins/wordtemplate/service/WordTemplateParser.java:170-179 | each match is bound to the first run of the paragraph whose text equals the match | a paragraph with runs "${a}", " ", "${a}": both matches are bound to run 0, and run 2 is never bound, so the second marker is never replaced (`TemplateParser.EqualMarkersAsWritten`) | each match is bound to the run that starts at the match's start, which after formatInstr holds exactly that marker | not executed; high | TemplateParser.FirstRunWithText | TemplateParser.MarkerRun |
| src/java/fr/paris/lutece/plugins/wordtemplate/service/WordService.java:414-415 | the tableCell parameter is overwritten with the cell addTableCell creates, and that cell is cloned into itself | any tableCell whose body is one paragraph "x": the inserted cell is an empty cell, not a copy (`WordService.InsertTableCellLosesContent`) | the given tableCell is cloned into the new cell | not executed; high | WordService.InsertTableCellAsWritten | WordService.InsertTableCell |
