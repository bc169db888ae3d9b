# Task tracker core, modelled in Dafny

This project models the core of a small command-line task tracker. A **User** owns an
ordered list of **Projects**, and each project owns an ordered list of **Tasks**. Each of
the three classes hands out ids from a class-level counter. The model makes these three
counters explicit as an `IdAllocator`, which every constructor receives.

Around the entities sit:

- a **DataManager**, which saves the users as nested records to a store file, loads them
  back (rebuilding the object graph and advancing the counters past every loaded id),
  makes a backup copy, and finds a user by email or by id;
- a few pure **helpers**: date validation and display, text truncation, and the test
  applied to a yes/no answer.

Modules, one per file:

- `Common` (common.dfy): `Option`, `Field` (a dictionary key that is missing or present),
  the first-match index and list removal.
- `Text` (text.dfy): ASCII `strip` and `lower`.
- `Dates` (dates.dfy): the `%Y-%m-%d` date check.
- `Identity` (ids.dfy): the id counters.
- `Tasks`, `Projects`, `Users` (task.dfy, project.dfy, user.dfy): one class per entity,
  with its record type and `to_dict`/`from_dict`.
- `DataManagement` (data_manager.dfy): the store and the lookups.
- `Helpers` (helpers.dfy): the pure helpers.

Modelling choices:

- **Setters.** A setter that raises `ValueError` in the source returns `Fail(message)` with
  the source's message and leaves the field as it was. A setter that succeeds returns `Pass`.
- **Constructors.** They validate nothing, as in the source: they store their arguments as
  given.
- **Records.** A serialised record (`TaskRecord`, `ProjectRecord`, `UserRecord`) has one
  `Field` per dictionary key, so a missing key is representable. `from_dict` returns `None`
  where the source raises `KeyError`. The counters it advanced before the failure stay
  advanced, as in the source.
- **The store file.** It is a value: absent, holding records, or unreadable. Whether an
  open, a write or a read succeeds is a parameter of the operation.

## Model

| member | source | states |
|---|---|---|
| Identity.ReplayKeepsCounterAhead | models/task.py:5-14 | Over any sequence of constructions, with or without explicit ids: the counter never decreases and ends above every id handed out or adopted; an explicit id is kept as given; every automatic id is at least the starting counter and above every id issued before it. |
| Identity.ReloadThenCreate | models/user.py:11-18 | After adopting a stored id k (with the counter at most k + 1), the next automatic id is exactly k + 1. |
| Identity.Raised | models/task.py:13-14 | Where a counter ends after adopting a set of ids, in any order: not below where it stood, above every one of them, and either where it stood or just above one of them, that is, at the larger of its old value and the largest id + 1. |
| Identity.RaisedStep | models/project.py:17-18 | Adopting a second batch of ids after a first: a counter that stood at `Raised` of the first batch, moved only by the second and stays above both ends at `Raised` of their union. |
| Identity.Counter.Take | models/project.py:10-18 | Without an id, the entity gets the counter and the counter goes up by one. With an id, the id is kept and the counter becomes max(counter, id + 1). The counter stays above every id issued and never decreases. An automatic id was never issued before. |
| Identity.IdAllocator.constructor | models/task.py:3 | A fresh process: three distinct counters, all at 1, none of which has issued anything. |
| Tasks.Task.constructor | models/task.py:5-18 | The id is assigned by the counter rule; title, status (default "pending") and assigned_to (default none) are stored unvalidated. |
| Tasks.Task.SetTitle | models/task.py:28-32 | Fails with "Task title cannot be empty" exactly when the value is empty or all whitespace, and the title is then unchanged; otherwise the title becomes the stripped value. |
| Tasks.Task.SetStatus | models/task.py:38-43 | Succeeds exactly for pending, in_progress and completed; on failure the status is unchanged and the message lists the three. |
| Tasks.Task.SetAssignedTo | models/task.py:49-51 | Any value, including none, is stored as given. |
| Tasks.Task.Complete | models/task.py:53-54 | The status becomes "completed"; the title, assignee and id are untouched. |
| Tasks.ToDictComplete | models/task.py:56-71 | to_dict writes every key from_dict reads, so a task's own record always loads, and filling in defaults changes nothing in it. |
| Tasks.Task.ToDict | models/task.py:56-62 | The record of the task's four fields. It has no contract of its own: Tasks.ToDictComplete and Tasks.Task.FromDict state that it loads back. |
| Tasks.Task.FromDict | models/task.py:64-71 | Loads exactly when task_id, title and status are present; the loaded task is a new object whose to_dict is the record with a missing assigned_to read as none; the task counter adopts the id, ending at the larger of its old value and the id + 1. |
| Projects.Project.constructor | models/project.py:9-24 | The id is assigned by the counter rule; the task list is empty; title, description, due date and owner email are stored unvalidated. |
| Projects.Project.SetTitle | models/project.py:34-38 | Fails exactly on empty or all-whitespace input, leaving the title; otherwise stores the stripped value. |
| Projects.Project.SetDescription | models/project.py:44-46 | Any description is stored as given. |
| Projects.Project.SetDueDate | models/project.py:52-58 | Succeeds exactly when the value is a valid YYYY-MM-DD date, the same test as validate_date; on failure the due date is unchanged. |
| Projects.Project.AddTask | models/project.py:68-71 | The task is appended at the end; earlier tasks keep their places. |
| Projects.Project.RemoveTask | models/project.py:73-78 | Returns true exactly when some task has the id; then only the first such task is removed and the others keep their order; otherwise the list is unchanged. |
| Projects.Project.GetTask | models/project.py:80-84 | Returns none exactly when no task has the id; otherwise the first task that has it. |
| Projects.WithStatus | models/project.py:86-87 | The tasks with a status form a list no longer than the task list, hold only tasks from it with that status, and hold every such task. |
| Projects.Project.GetTasksByStatus | models/project.py:86-87 | The project's tasks with the given status. It has no contract of its own: Projects.WithStatus and Projects.WithStatusConcat state its properties. |
| Projects.WithStatusConcat | models/project.py:86-87 | The filter keeps order: filtering a concatenation is concatenating the filtered parts. |
| Projects.ToDictComplete | models/project.py:89-114 | A project's own record, nested tasks included, always loads, and filling in defaults changes nothing in it. |
| Projects.LoadableWithDefaults | models/project.py:99-114 | Filling in a missing task list (as empty) and missing assignees does not change whether a record loads. |
| Projects.Project.Rebuilt | models/project.py:89-114 | A project whose fields are those of a record, and whose tasks serialise to the record's tasks with defaults, serialises back to that record with defaults. |
| Projects.Project.ToDict | models/project.py:89-97 | The project's fields and its tasks' records in order. It has no contract of its own: Projects.ToDictComplete, Projects.Project.Rebuilt and Projects.Project.FromDict state that it loads back. |
| Projects.Project.AddFromDict | models/project.py:111-112 | One step of the task loop: succeeds exactly when the task record loads; then one new task is appended and the earlier ones keep their places; the project's task records gain that record, with its default, at the end; the task counter adopts its id, never decreases, and stands at its value before the loop or one above a task id adopted so far. |
| Projects.Project.AddAllFromDict | models/project.py:110-112 | The task loop: succeeds exactly when every task record loads; the tasks are then new objects whose records are the task records with defaults, in order; the task counter adopts every task id, never decreases, and stands at its old value or one above one of those ids. No task is held twice. |
| Projects.TasksLoaded | models/project.py:110-112 | Tasks whose records equal a list of task records with defaults can only come from records that all load. |
| Projects.Project.FromDict | models/project.py:99-114 | Loads exactly when the project keys and every task's keys are present; the loaded project and all its tasks are new objects; its to_dict is the record with defaults, tasks in order; the project counter adopts its id and ends at the larger of its old value and the id + 1; the task counter adopts every task id and stands at its old value or one above one of them; neither counter ever decreases; a record missing a project key leaves both counters untouched. The project holds each of its tasks once. |
| Projects.OwnedTasks | models/project.py:110-112 | When the tasks of a list of projects hold no repeat, each project holds each of its tasks once and no two projects share a task. |
| Users.IsEmail | models/user.py:44-45 | The whole text matches the email pattern: one or more ASCII letters, digits or `._%+-`, then '@', then one or more ASCII letters, digits, '.' or '-', then '.', then two or more ASCII letters. It has no contract of its own: Users.EmailSplitUnique, Users.AcceptedEmail, Users.AcceptedTaggedEmail and Users.RefusedEmails pin it down. |
| Users.EmailSplitUnique | models/user.py:42-47 | An accepted email has exactly one '@', no '.' after the final dot, and only one way to split into local part, domain and top-level part. |
| Users.AcceptedEmail | models/user.py:44-45 | "ann@example.com" is accepted. |
| Users.AcceptedTaggedEmail | models/user.py:44-45 | "j.doe+work@mail.co.uk" is accepted: dots and '+' in the local part, dots in the domain. |
| Users.RefusedEmails | models/user.py:44-46 | Refused: no '@', empty local part, two '@', no dot in the domain, a one-letter ending, an empty label before the dot. |
| Users.User.constructor | models/user.py:9-22 | The id is assigned by the counter rule; the project list is empty; name and email are stored unvalidated. |
| Users.User.SetName | models/user.py:32-36 | Fails exactly on empty or all-whitespace input, leaving the name; otherwise stores the stripped value. |
| Users.User.SetEmail | models/user.py:42-47 | Succeeds exactly when the value matches the email pattern; on failure the email is unchanged. |
| Users.User.AddProject | models/user.py:53-56 | The project is appended at the end; earlier projects keep their places. |
| Users.User.RemoveProject | models/user.py:58-63 | Returns true exactly when some project has the id; then only the first such project is removed, the rest in order; otherwise the list is unchanged. |
| Users.User.GetProject | models/user.py:65-69 | Returns none exactly when no project has the id; otherwise the first project that has it. |
| Users.ToDictComplete | models/user.py:71-92 | A user's own record, with nested projects and tasks, always loads, and filling in defaults changes nothing in it. |
| Users.LoadableWithDefaults | models/user.py:79-92 | Filling in missing project and task lists does not change whether a record loads. |
| Users.User.ToDict | models/user.py:71-77 | The user's fields and its projects' records in order. It has no contract of its own: Users.ToDictComplete, Users.User.Rebuilt and Users.User.FromDict state that it loads back. |
| Users.LoadProject | models/user.py:89 | `Project.from_dict` on project record i: loads exactly when that record is loadable, as a new project with new tasks whose to_dict is the record with defaults; the counters gain its ids, never decrease, and each stands at its old value or one above an id of its kind in that record. The loaded project holds each of its tasks once. |
| Users.User.AddFromDict | models/user.py:89-90 | One step of the project loop: succeeds exactly when the project record loads; then one new project, whose tasks are new too, is appended and the earlier ones keep their places; the user's project records gain that record, with defaults, at the end; the counters adopt the project id and its task ids, never decrease, and each stands at its value before the loop or one above an id of its kind adopted so far. No project is held twice, and no task is held twice by one project or by two. |
| Users.OwnedAppend | models/user.py:89-90 | Appending a new project with new tasks, each held once, to unchanged projects keeps every project and every task in the list only once. |
| Users.User.AddAllFromDict | models/user.py:88-90 | The project loop: succeeds exactly when every project record loads; the projects and their tasks are then new objects whose records are the project records with defaults, in order; the counters adopt every project and task id in them, never decrease, and each stands at its old value or one above one of those ids. No project is held twice, and no task is held twice by one project or by two. |
| Users.ProjectsLoaded | models/user.py:88-90 | Projects whose records equal a list of project records with defaults can only come from records that all load. |
| Users.User.Rebuilt | models/user.py:71-92 | A user whose fields are those of a record, and whose projects serialise to the record's projects with defaults, serialises back to that record with defaults. |
| Users.User.FromDict | models/user.py:79-92 | Loads exactly when every nested key is present; the loaded user, its projects and their tasks are new objects; its to_dict is the record with defaults, projects and tasks in order; each counter adopts exactly the ids of its kind in the record and never decreases; the user counter ends at the larger of its old value and the user id + 1, and the project and task counters at their old value or one above an id of their kind in the record. No project is held twice, and no task is held twice by one project or by two. |
| DataManagement.DataManager.constructor | utils/data_manager.py:16-28 | The manager starts with the store and backup files as they are found. |
| DataManagement.DataManager.SaveUsers | utils/data_manager.py:30-48 | Returns true exactly when the write completes; the store then holds the users' to_dict records in order. If the open fails, the store is unchanged. An interrupted write leaves it unreadable. |
| DataManagement.SavedRecordsLoad | utils/data_manager.py:39-67 | Every record written by save_users loads, and filling in defaults changes none of them. |
| DataManagement.LoadNext | utils/data_manager.py:67 | One user of the load: built exactly when its record loads, as a new object with new projects and tasks; the loaded records then gain that user's record with defaults; each counter gains the ids of its kind in it and stands exactly at the larger of its value before the loop and the largest id of its kind loaded so far + 1. The users loaded so far, with this one, stay a tree (`Owned`): no user, project or task is reached twice. |
| DataManagement.OwnedAppend | utils/data_manager.py:67-68 | Appending a new user, with new projects holding new tasks, each held once, to unchanged users keeps users, projects and tasks a tree. |
| DataManagement.LoadAll | utils/data_manager.py:67-68 | Yields users exactly when every record loads; the users, their projects and their tasks are new objects; the users' to_dict records are the stored records with defaults, in order; each counter has adopted every id of its kind in the store and stands exactly at the larger of its old value and the largest of those ids + 1. The users, projects and tasks form a tree (`Owned`): no user is listed twice, and no project or task is reached twice. |
| DataManagement.LoadedAll | utils/data_manager.py:67 | Users whose records equal the stored records with defaults can only come from a store in which every record loads. |
| DataManagement.DataManager.LoadUsers | utils/data_manager.py:50-75 | An absent or unreadable store, or one with any record that fails to load, yields the empty list, never a partial one; an absent or unreadable store leaves the counters untouched. Otherwise the users, their projects and their tasks are new objects, rebuilt in order from the records with defaults, and each counter ends strictly above every id of its kind in the store, exactly at the larger of its old value and the largest such id + 1. No counter ever decreases. The loaded users, projects and tasks form a tree (`Owned`, read object by object in `OwnedTree`). |
| DataManagement.OwnedTree | utils/data_manager.py:67-68 | A tree of users read object by object: each user holds each project once, no two users share a project, each project holds each task once, and no two projects share a task. |
| DataManagement.DataManager.LoadThenCreate | utils/data_manager.py:50-68 | Loading the store and then creating a user without an id: the new id is new to the counter and not below its old value; with an absent or unreadable store it is the counter's old value; after a successful load it is above every stored user id, equals the larger of the old counter and the largest stored user id + 1, and so equals the largest stored user id + 1 whenever that is not below the old counter. |
| DataManagement.ReloadThenCreateExample | models/user.py:8-18 | A fresh process that loads a store holding user 7 and then creates a user gives the new user id 8. |
| DataManagement.DataManager.SaveThenLoad | utils/data_manager.py:30-75 | A completed save followed by a successful load gives users whose to_dict records equal the originals', in the same order. |
| DataManagement.DataManager.FindUserByEmail | utils/data_manager.py:77-91 | Returns none exactly when no user's email is equal (case-sensitive) to the query; otherwise the user at the first position of the users' emails (`Common.FirstIndex`) that equals the query, so no earlier user has that email. |
| DataManagement.DataManager.FindUserById | utils/data_manager.py:93-107 | Returns none exactly when no user has the id; otherwise the first user that has it. |
| DataManagement.DataManager.BackupData | utils/data_manager.py:109-129 | With no store file: false, and the backup is untouched. Otherwise true exactly when the copy completes, and the backup then holds exactly the store's contents. A failed open leaves the backup as it was. An interrupted copy leaves it unreadable. |
| Text.StripEmptyIffBlank | models/task.py:30 | Stripping leaves nothing exactly when the text is empty or all whitespace. |
| Text.StripTrimsBothEnds | models/task.py:32 | A stripped text neither starts nor ends with whitespace. |
| Text.StripIsTrimmedSlice | models/task.py:32 | A stripped text is a contiguous slice of the original with only whitespace cut on either side. |
| Text.StripIdempotent | models/task.py:32 | Stripping twice is stripping once, so a stored title is already in stripped form. |
| Text.LowerStripCommute | utils/helpers.py:76 | Lower-casing and stripping commute. |
| Dates.ValidDate | utils/helpers.py:19-23 | A ten-character YYYY-MM-DD string naming a real calendar day, leap years included, in year 1 or later. It has no contract of its own: Dates.AcceptedDates, Dates.RefusedDays and Dates.RefusedFields pin it down on examples. |
| Dates.AcceptedDates | utils/helpers.py:19-21 | "2024-12-31" and, 2024 being a leap year, "2024-02-29" are valid dates. |
| Dates.RefusedDays | utils/helpers.py:19-23 | "2024-02-30" and "2023-02-29" are refused: the day is past the month's end. |
| Dates.RefusedFields | utils/helpers.py:19-23 | "2024-13-01" (month 13), "0000-01-01" (year 0) and "31-12-2024" (fields out of order) are refused. |
| Helpers.ValidateDate | utils/helpers.py:9-23 | An accepted date is ten characters with dashes at positions 4 and 7; a refused one is what format_date returns unchanged. |
| Helpers.FormatDate | utils/helpers.py:26-40 | A valid date as month name, day and year; anything else unchanged. It has no contract of its own: Helpers.ValidateDate, Helpers.FormatChangesExactlyValid and Helpers.FormatDateInjective state its properties. |
| Helpers.MonthNameInverse | utils/helpers.py:38 | The twelve `%B` month names are distinct: each name identifies its month. |
| Helpers.FormatChangesExactlyValid | utils/helpers.py:26-40 | format_date changes its argument exactly when validate_date accepts it. |
| Helpers.FormatDateInjective | utils/helpers.py:36-38 | Two valid dates with the same display form are the same date string: formatting loses nothing. |
| Helpers.TruncateText | utils/helpers.py:119-132 | Text that fits comes back whole. Longer text ends with "..." after a prefix of the original. With a bound of 3 or more it is exactly the bound long. Below 3 its length follows Python's negative slice. |
| Helpers.TruncateWithinBound | utils/helpers.py:130-132 | With a bound of at least 3, the result never exceeds the bound. |
| Helpers.TruncateIdempotent | utils/helpers.py:119-132 | Truncating a truncated text again with the same bound (at least 3) changes nothing. |
| Helpers.TruncateDefault | utils/helpers.py:119 | Under the default bound of 50, a 60-character text becomes its first 47 characters followed by "...". |
| Helpers.IsConfirmation | utils/helpers.py:76-77 | The answer, lower-cased and stripped, is "y" or "yes". It has no contract of its own: Helpers.ConfirmationIgnoresCaseAndPadding, Helpers.ConfirmationShape, Helpers.AcceptedAnswers, Helpers.AcceptedPaddedAnswer and Helpers.RefusedAnswers state its properties. |
| Helpers.ConfirmationIgnoresCaseAndPadding | utils/helpers.py:76-77 | Stripping or lower-casing the answer first never changes whether it confirms. |
| Helpers.ConfirmationShape | utils/helpers.py:76-77 | A confirming answer, stripped, is one or three characters long and starts with 'y' or 'Y'. |
| Helpers.AcceptedAnswers | utils/helpers.py:76-77 | "y" and "Yes" confirm. |
| Helpers.AcceptedPaddedAnswer | utils/helpers.py:76-77 | " YES " confirms. |
| Helpers.RefusedAnswers | utils/helpers.py:76-77 | "no", "ye" and "yess" do not confirm. |

## Left out

I/O and presentation:

- JSON encoding and the file system: `json.dump`, `json.load`, `open`, `os.path.exists`, and the data directory created by the `DataManager` constructor. The store file is a value: absent, holding records, or unreadable. Whether an open, write or read succeeds is a parameter (`IoOutcome`, `readOk`).
- Ill-typed values in a stored record are not modelled. The record types hold only integer ids; string titles, statuses, descriptions, names, emails and dates; an optional string assignee; and lists of records, so a file with other values can only be given as `Unreadable`, which loads as the empty list. The source checks no types in `from_dict`: a null name, a numeric title or a float id is stored as it is, and that user loads. Only a value that reaches a comparison, an iteration or a subscript raises and gives the empty list: a string id compared with the counter, a null task list, a task list holding a number (`"tasks": [5]`, subscripted by `data['title']` at models/task.py:67), or a project list given as a string (`"projects": "abc"`). On such files the model and the source differ.
- Console output: the `print` messages of `DataManager`, `__str__`/`__repr__`, `print_separator`, `print_header`, `display_list` and `get_input`.
- The `input()` call in `confirm_action`. Only its test of the answer is modelled, as `Helpers.IsConfirmation`.
- main.py is not part of this model: command dispatch and output.

Types and Python semantics:

- Python's type checks: the `TypeError` raised by `add_task`/`add_project` for objects of the wrong class, and a `None` passed to a setter. Dafny's types rule these inputs out.
- A JSON `null` id in a stored record (which would take an automatic id on load) is not modelled. A stored id is either missing or an integer.
- Concurrency: races between processes on the store file, and the process-wide nature of the counters. The counters are passed explicitly as an `IdAllocator`.
- Text.Strip: strips exactly the characters below 128 that Python treats as whitespace: tab, newline, vertical tab, form feed, carriage return, U+001C to U+001F, and space. Python's non-ASCII whitespace, such as U+0085, U+00A0 and U+2028, is not stripped.
- Text.Lower: lower-cases only 'A' to 'Z', not Unicode letters.

Weaker than the source:

- Dates.ValidDate: accepts only the strict ten-character form YYYY-MM-DD with years from 1. `strptime` also accepts single-digit months and days such as "2024-1-5", a day padded with a space such as "2024-01- 5" (ten characters), and digits from other Unicode scripts. The model refuses those, so `Projects.Project.SetDueDate`, `Helpers.ValidateDate` and `Helpers.FormatDate` treat them as invalid.
- Helpers.FormatDate: prints the year with the four digits it was given. The C library's `%Y` may print years below 1000 without leading zeros.
- Users.IsEmail: is the pattern without the `$` quirk. Python's `re.match` with `$` also accepts an address followed by one trailing newline, and the model refuses it.
- DataManagement.DataManager.LoadUsers: when some record fails to load, states only that the list is empty and that the counters stay valid and do not decrease. It does not state which ids the records before the failing one made the counters adopt.
- Projects.Project.FromDict: when a nested task record fails to load, states only that the counters stay valid and do not decrease. It does not say which ids were adopted before the failure.
- Users.User.FromDict: when a nested record fails to load, states only that the counters stay valid and do not decrease. It does not say which ids were adopted before the failure.
