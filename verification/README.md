# Task & Learning Tracker — a Dafny model of its task logic

The tracker keeps a collection of task records in two lists: `tasks`
(pending, in the order they were added) and `completed` (in the order they
were completed). Its forms perform three actions:

- **Add task**: rejected when the name, category or size is empty; otherwise a
  record with the given name, category, size and date, the links parsed from
  the links text and empty notes is appended to the pending list.
- **Update task**: the links parsed from the links text are appended to the
  task's links; the notes are replaced only when the new notes are non-empty.
- **Mark as completed**: the pending task at position `i` is removed from the
  pending list and appended, unmodified, to the completed list.

Links text is parsed by splitting on `,`, stripping whitespace from every
piece and dropping the pieces left empty.

The model has four modules:

- `Text` (`text.dfy`): whitespace stripping (`Strip`, Python's `str.strip()`,
  as a forward scan past leading whitespace and a backward scan past trailing
  whitespace), splitting on a separator (`Split`, Python's `str.split(sep)`)
  and its inverse `Join`.
- `Seqs` (`seqs.dfy`): generic facts about concatenating and slicing
  sequences, used by the proofs.
- `Links` (`links.dfy`): the link-parsing comprehension, `ParseLinks`.
- `Tracker` (`tracker.dfy`): the `Task` and `Collection` records, the three
  actions as pure functions from collection to collection, and the tracker as
  a state machine (`Apply` one action, `Run` a session of actions) with the
  invariants every action keeps.

Category and size are modelled as strings, as the code stores them: the
select boxes offer `""` as their first option, and the add form rejects it
like an empty name. The enumerated sets {Personal, Business} and
{Small, Medium, Large} are enforced only by the widgets, so the model does not
restrict the strings further.

The date is an opaque string passed to the add action; the state is an
explicit value passed in and returned rather than the module-level `data`.

## Model

| member | source | states |
|---|---|---|
| Text.SkipSpaceForward | main.py:84 | the forward scan of `strip` stops at the first non-whitespace character at or after its start, having passed only whitespace |
| Text.SkipSpaceBackward | main.py:84 | the backward scan of `strip` stops just past the last non-whitespace character, never going below the forward scan's stop, having passed only whitespace |
| Text.Strip | main.py:84 | the stripped text is empty exactly when the input is all whitespace, and otherwise neither starts nor ends with whitespace |
| Text.StripIsInfix | main.py:84 | stripping removes only a whitespace prefix and a whitespace suffix: the result is a contiguous slice of the input |
| Text.StripFixedPoint | main.py:84 | stripping leaves a text alone exactly when it has no whitespace at either end; stripping twice equals stripping once |
| Text.StripPadded | main.py:84 | stripping a non-empty trimmed text surrounded by any whitespace gives back exactly that text |
| Text.Split | main.py:84 | splitting on `,` always yields at least one piece, as Python's `split` does (even for the empty text) |
| Text.SplitPiecesLackSeparator | main.py:84 | no piece of a split contains the separator |
| Text.JoinSplit | main.py:84 | joining the pieces with the separator gives back the original text |
| Text.SplitJoin | main.py:84 | any separator-free pieces are recovered by splitting their join, so the split is the unique such decomposition |
| Text.SplitAround | main.py:84 | the split of `a + "," + b` is the split of `a` followed by the split of `b` |
| Text.SplitWithoutSeparator | main.py:84 | a text without the separator is a single piece |
| Text.SplitCount | main.py:84 | a split has exactly one more piece than the text has separators |
| Text.SplitAllSpace | main.py:84 | every piece is all whitespace exactly when every character of the text is whitespace or the separator |
| Links.Kept | main.py:84 | one piece contributes at most one link, nothing exactly when the piece is all whitespace, and what it contributes is non-empty and trimmed |
| Links.KeepNonBlank | main.py:84 | the filter keeps at most one link per piece and every kept link is non-empty and trimmed |
| Links.KeepNonBlankEmpty | main.py:84 | the filter drops everything exactly when every piece is blank |
| Links.KeepNonBlankMembers | main.py:84 | a string is kept exactly when it is the non-empty stripped form of some piece |
| Links.KeepNonBlankConcat | main.py:84 | the filter commutes with concatenation, so the kept links keep the pieces' left-to-right order |
| Links.ParseLinks | main.py:84 | every parsed link is non-empty with no whitespace at either end |
| Links.ParseLinksCount | main.py:84 | there are never more links than comma-separated pieces (commas plus one) |
| Links.ParseLinksAround | main.py:84 | the links of `a + "," + b` are the links of `a` followed by the links of `b` |
| Links.ParseLinksPiece | main.py:84 | a comma-free text yields its stripped form as its only link, or nothing when it is blank |
| Links.ParseLinksOfJoin | main.py:84 | parsing comma-joined pieces keeps exactly the non-blank pieces, stripped, in their original order |
| Links.ParseLinksPadded | main.py:84 | a single link surrounded by whitespace, with no comma, parses to that link alone |
| Links.ParseLinksPaddedAround | main.py:84 | a leading whitespace-padded link contributes exactly that link before the links of the rest of the text |
| Links.ParseLinksBlankAround | main.py:84 | a leading blank piece (before the first comma) contributes no link |
| Links.ParseLinksExample | main.py:84 | the text `"a, b ,, c"` (for any link characters a, b, c) parses to `["a", "b", "c"]`: padding is stripped and the empty piece between adjacent commas is dropped |
| Links.ParseLinksEmpty | main.py:114 | a text yields no links exactly when it consists only of whitespace and commas (including the empty text) |
| Tracker.AddTask | main.py:75-88 | the add is rejected exactly when name, category or size is empty; on success pending grows by one, earlier pending tasks and the completed list are unchanged, and the new last task carries the given fields, the parsed links and empty notes |
| Tracker.AppendLinks | main.py:113-114 | the old links are a prefix of the new links, the appended suffix is the parse of the links text, and no other field changes |
| Tracker.AppendLinksUnchanged | main.py:113-114 | the update leaves the task unchanged exactly when the links text is empty or holds only whitespace and commas |
| Tracker.SetNotes | main.py:115-116 | non-empty notes replace the old notes wholesale; empty notes leave the task as it was; no other field changes |
| Tracker.NotesNeverCleared | main.py:115-116 | once a task has notes no update can clear them; submitting empty notes after setting notes keeps them |
| Tracker.UpdateTask | main.py:108-117 | the updated task keeps name, category, size and date, its links grow by the parsed text, its notes follow the non-empty rule, and no other task nor the completed list changes |
| Tracker.CompleteTask | main.py:121-123 | the task at `i` leaves pending (later tasks move up one place), is appended unmodified to completed, earlier completed tasks stay, and the multiset of all tasks is preserved |
| Tracker.AddKeepsWellFormed | main.py:76-87 | a successful add keeps every task well formed: required fields filled in, every link non-empty and trimmed |
| Tracker.UpdateKeepsWellFormed | main.py:113-116 | an update keeps every task well formed: the appended links are clean and the required fields are untouched |
| Tracker.CompleteKeepsWellFormed | main.py:122-123 | completing a task keeps every task well formed, since it only moves a task between the lists |
| Tracker.Ids | main.py:75-125 | the identities (name, category, size, date) of a task list, one per task: the multiset has as many elements as the list has tasks and contains every task's identity |
| Tracker.IdsConcat | main.py:75-125 | the identities of two concatenated task lists are the union of their identities |
| Tracker.AddKeepsTasks | main.py:79-87 | a successful add keeps every task the tracker held and introduces exactly one, with the given name, category, size and date |
| Tracker.UpdateKeepsTasks | main.py:108-117 | an update loses, duplicates and renames no task: the tracker holds the same task identities before and after |
| Tracker.CompleteKeepsTasks | main.py:121-123 | completing a task moves it between the lists: the tracker holds the same task identities before and after |
| Tracker.Apply | main.py:75-125 | a rejected add changes nothing; every action keeps all tasks well formed (required fields filled, clean links), never alters or removes a completed task, never shrinks the total number of tasks, and deletes no task: every task identity held before is still held after, with multiplicity |
| Tracker.Run | main.py:75-125 | over any session of enabled actions the collection stays well formed, the completed list is only extended, and no task identity held at the start is lost |
| Tracker.ReachableWellFormed | main.py:75-125 | every state reachable from an empty tracker is well formed |

## Left out

- Loading and saving the JSON data file (`load_data`, `save_data`, main.py:10-29): file I/O and the JSON library; the model's state is an in-memory value.
- The date stamp `datetime.now().strftime("%Y-%m-%d")` (main.py:83): wall-clock time and formatting; the add action takes the date as an opaque string.
- Streamlit widgets, CSS, expanders, banners and the forced rerun (main.py:35-152): presentation only.
- Text.Strip: strips only space, tab, line feed and carriage return; Python's `str.strip()` also strips vertical tab, form feed, the file/group/record/unit separators and the Unicode whitespace characters, which the model does not list.
- Out-of-range indices for update and completion: the code only uses indices from enumerating the pending list (main.py:94), so the index bound is a precondition (`Enabled`) and no index error is modelled.
- Completed tasks cannot be edited: the code draws the update form only for pending tasks, so `Update` addresses pending tasks only.
- The code mutates one shared dictionary in place; the model returns a new collection from every action. Each task owns its own links list, so no aliasing between tasks is lost.
