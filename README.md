# Course catalog bots, modelled in Dafny

This project models the core of two small Telegram bots that keep a catalog
of courses. The model proves what their command handlers do to the
catalog.

- **main.py** keeps `courses`, a dict from course name to
  `{"area": ..., "link": ...}`. It is loaded from `cursos.json` at import
  and saved whole after every add. A user adds a course through a
  three-step form: name (`AD_NOME`), then area (`AD_AREA`), then link
  (`AD_LINK`), then `END`. The partial answers are kept in that user's
  `user_data`. `/listar_cursos` groups the course names by area, and
  `/curso <args...>` looks up one course's link.
- **bot.py** keeps `cursos`, a dict from course name to link.
  `/adicionar_curso <nome> <link...>` writes one entry and
  `/listar_cursos` prints one `nome: link` line per entry.

Modules, one per file:

- `Seqs` (seqs.dfy): distinctness, first index, and `Dedup`. `Dedup`
  keeps the distinct elements of a sequence in order of first occurrence.
- `Text` (text.dfy): `str.strip()`, `str.lower()`, `" ".join(...)` and
  `str.split(" ")` on ASCII.
- `OrderedDict` (ordered_dict.dfy): a Python dict with string keys. It is
  a map plus the insertion order of its keys. Writing to an existing key
  keeps that key's position; a new key goes last. main.py's `courses` and
  `grouped` and bot.py's `cursos` are all this type.
- `CourseCatalog` (course_catalog.dfy): main.py's data as values. It holds
  the course record, the replies, the lookup `GetCourseLink`, the
  specification of the listing (`Grouped`, `Render`, `ListingReply`) and
  the lemmas about them.
- `CourseBot` (course_bot.dfy): main.py's handlers over mutable state.
  Class `Bot` holds `courses` and the saved file. Class `Session` holds one
  user's conversation state and the `add_nome` / `add_area` entries of
  that user's `user_data`.
- `LinkBot` (link_bot.dfy): bot.py.

Behaviour of main.py worth noting:

- The add commit writes into the catalog loaded at import. It does not
  reload the file first.
- The area value is `ciencias da natureza`, with spaces.
- `user_data` is not cleared when the form ends. A later form overwrites
  `add_nome` and `add_area` step by step.
- If the link step runs while `user_data` lacks `add_nome` or `add_area`,
  Python raises `KeyError` before anything is written. The model returns
  `KeyError(key)` and changes nothing, not even the conversation state.
- The name step strips only the ends of the name, while `/curso` rebuilds
  the key from the command's words joined by single spaces. A name holding
  a run of inner whitespace is stored but cannot be found by typing its
  words (`CourseCatalog.LookupMissesWhitespaceRun`).

## Model

| member | source | states |
|---|---|---|
| `Text.StripStart` | main.py:83 | where `strip()` starts keeping: everything skipped is whitespace, and the first character kept is not |
| `Text.StripEnd` | main.py:83 | where `strip()` stops keeping: everything cut from the end is whitespace, the last character kept is not, and it never passes the start |
| `Text.Trim` | main.py:83 | `strip()`: the result has no whitespace at either end; it is empty exactly when the input is all whitespace |
| `Text.TrimIsSlice` | main.py:104 | what `strip()` keeps is a contiguous piece `s[lo..hi]` of the input, and only whitespace lies outside it |
| `Text.TrimOfTrimmed` | main.py:137 | `strip()` returns a string with no whitespace at either end unchanged |
| `Text.TrimIdempotent` | main.py:137 | stripping a stripped string changes nothing, so a name stored by the form is its own lookup key |
| `Text.Lower` | main.py:95 | `lower()`: same length, no capital letter left, and each character agrees with the input's up to case |
| `Text.LowerOfLowercase` | main.py:96 | lowering a string that has no capital letter gives the same string |
| `Text.Split` | bot.py:11 | `split(" ")`, the inverse of the join: at least one piece, and no piece contains the separator |
| `Text.JoinSplit` | bot.py:11 | joining the pieces of a split with the separator gives back the string |
| `Text.SplitJoin` | bot.py:11 | splitting a join of separator-free pieces gives back the pieces |
| `Seqs.Dedup` | main.py:124 | the keys of the `setdefault` loop: distinct, and exactly the elements of the scanned sequence |
| `Seqs.DedupAppend` | main.py:124 | scanning one more element appends it when it is new and changes nothing otherwise |
| `Seqs.DedupFirstSeenOrder` | main.py:122-125 | the distinct elements come in the order of their first occurrence |
| `OrderedDict.Empty` | main.py:28 | `{}` is a valid dict with no key |
| `OrderedDict.Put` | main.py:107 | `d[k] = v`: `k` maps to `v`; every other key keeps its value; an existing key keeps its position and the size; a new key is appended |
| `CourseCatalog.GetCourseLink` | main.py:133-142 | no arguments gives usage; otherwise the key is the arguments joined by spaces and stripped; the reply is the stored link exactly when the key is a course name, and otherwise "not found" with the key |
| `CourseCatalog.LookupAfterPut` | main.py:137-140 | after writing a course, any arguments that join to its name find the link just written |
| `CourseCatalog.LookupAfterOtherPut` | main.py:138-142 | writing a course under another name leaves every other lookup's reply unchanged |
| `CourseCatalog.LookupByStoredName` | main.py:107 | `/curso` with a name stored by the form, as its single argument, finds the link stored with it |
| `CourseCatalog.LookupByWords` | main.py:137-140 | when a stored name's words are separated by single spaces, `/curso` followed by those words finds the link written with it |
| `CourseCatalog.LookupMissesWhitespaceRun` | main.py:83-87 | the name `Calculo  1`, with two inner spaces, is accepted by the name step, but `/curso Calculo 1` looks up `Calculo 1` and replies "not found" |
| `CourseCatalog.ConformsAfterPut` | main.py:107 | writing a stripped, non-empty name with one of the five areas keeps every catalog entry in the form the add conversation writes |
| `CourseCatalog.ListingEmpty` | main.py:117-119 | the listing is the "none registered" reply exactly when the catalog is empty |
| `CourseCatalog.MembersElements` | main.py:122-124 | a name is listed under an area exactly when it is a course of the catalog in that area |
| `CourseCatalog.MembersAppend` | main.py:124 | `append(nome)` adds the scanned course to its own area's list and to no other |
| `CourseCatalog.MembersOfAbsentArea` | main.py:124 | an area that no scanned course has has no names, so `setdefault` starts it from `[]` |
| `CourseCatalog.MembersInOrder` | main.py:122-124 | the names under an area are distinct and in catalog order |
| `CourseCatalog.GroupStep` | main.py:122-124 | one `setdefault(area, []).append(nome)` for the next course turns the grouping of the courses before it into the grouping of the courses up to it |
| `CourseCatalog.RenderSnoc` | main.py:125-128 | rendering one more group appends its heading and then its names |
| `CourseCatalog.NameUnderItsArea` | main.py:125-128 | every course of the catalog is listed under the heading of its own area and under no other heading, and that heading exists |
| `CourseCatalog.ListingAreasInFirstSeenOrder` | main.py:121-126 | the area headings are distinct and in the order of each area's first course in the catalog |
| `CourseCatalog.ListingNamesInCatalogOrder` | main.py:121-128 | no area heading is empty, and the names under a heading are distinct and in catalog order |
| `CourseCatalog.FlatPermutation` | main.py:121-128 | for distinct areas that cover every course, the names of all groups together are a permutation of the catalog's names |
| `CourseCatalog.ListingIsPermutation` | main.py:121-128 | the names listed under all headings are a permutation of the catalog's names, so each course is listed exactly once |
| `CourseCatalog.ItemNamesOfRender` | main.py:125-128 | the course lines of the rendered groups name each group's courses, group after group |
| `CourseCatalog.ListingListsEachCourseOnce` | main.py:116-130 | the reply is a listing exactly when the catalog is not empty, and its course lines then name every course exactly once |
| `CourseBot.Session.constructor` | main.py:105-106 | a user who has not started a form: no conversation state and neither `add_nome` nor `add_area` in `user_data` |
| `CourseBot.Bot.constructor` | main.py:23-35 | the catalog at import is the saved one, or empty when no file exists |
| `CourseBot.Bot.SaveCourses` | main.py:30-32 | the file afterwards holds the whole in-memory catalog |
| `CourseBot.Bot.AddCourseStart` | main.py:78-80 | asks for the name and enters `AD_NOME`; `user_data` is untouched |
| `CourseBot.Bot.AddCourseNome` | main.py:82-92 | an all-whitespace message re-prompts and stays at `AD_NOME` with `add_nome` unchanged; otherwise the stripped name is stored and the state becomes `AD_AREA`; the stored name is non-empty and stripped |
| `CourseBot.Bot.AddCourseArea` | main.py:94-101 | the state becomes `AD_LINK` exactly when the stripped, lowered message is one of the five areas, and then that value is stored; otherwise the form re-prompts at `AD_AREA` and `add_area` is unchanged |
| `CourseBot.Bot.AddCourseLink` | main.py:103-113 | with both keys present, the catalog becomes the old one with `courses[nome] = {area, stripped link}` and every other entry unchanged, the file equals the catalog, and the state is `END`; a missing key is a `KeyError` with nothing changed; a catalog of well-formed entries stays well-formed |
| `CourseBot.Bot.ListCourses` | main.py:116-130 | the reply is exactly `ListingReply(courses)`: "none registered", or the title, each group's heading and names, then the closing hint |
| `CourseBot.GroupByArea` | main.py:121-124 | the loop builds `grouped` with its areas in first-seen order, each holding exactly its members in catalog order |
| `CourseBot.RenderGrouped` | main.py:125-128 | the nested loops produce the title followed by each area heading and that area's names, in `grouped`'s order |
| `CourseBot.AppendNames` | main.py:127-128 | the inner loop appends one line per course name, in order |
| `CourseBot.AddConversation` | main.py:78-113 | running the three steps with a usable name and a valid area commits the course, saves the catalog, ends at `END`, and `/curso` with the stored name as its one argument returns the link |
| `LinkBot.ListarCursos` | bot.py:18-23 | "none available" exactly when the dict is empty; otherwise one `nome: link` line per entry in insertion order, so the line count equals the entry count |
| `LinkBot.ListingAfterNewCourse` | bot.py:12 | adding a new name appends exactly its line to the listing |
| `LinkBot.ListingAfterOverwrite` | bot.py:12 | adding an existing name keeps the number of lines, replaces that name's line in place and leaves the other lines unchanged |
| `LinkBot.StoredLinkKeepsArguments` | bot.py:10-11 | the stored link, split on spaces, gives back the arguments after the name |
| `LinkBot.Bot.constructor` | bot.py:5 | the dict starts empty |
| `LinkBot.Bot.AdicionarCurso` | bot.py:8-15 | with fewer than two arguments: usage and no change; otherwise `cursos[args[0]]` becomes the rest of the arguments joined by single spaces, every other entry is unchanged, and the size grows by one only for a new name |

## Left out

- Telegram transport: `Update`, `reply_text`, `Application`/`Updater`, polling and the HTTP entry point. These are external library calls and asynchronous I/O. Each handler's reply is returned as a value.
- `ConversationHandler` dispatch: which handler gets a message. `add_conv` is referenced in main.py but never defined. `AddConversation` chains the add handlers in the order their return values name.
- The edit, delete and cancel conversations (`edit_conv`, `del_conv`, `/cancelar`). They are referenced in main.py but never defined in it, so there is nothing to model.
- The `/start` replies in both files. They are fixed help texts.
- Exact reply strings and emoji. Replies are datatypes carrying the data the text shows.
- `CourseCatalog.ListingReply`: area headings carry the area as stored. `str.capitalize()` is not modelled.
- `LinkBot.ListarCursos`: returns the list of lines. Their `"\n".join` and the title line are not modelled.
- File I/O and JSON encoding in `load_courses` / `save_courses`. The file is an abstract saved snapshot: `None` means no file. A malformed file and write failures are not modelled.
- `Text.Trim`, `Text.Lower`: ASCII only. Python's `strip()` also removes Unicode whitespace such as U+00A0, and `lower()` also lowers non-ASCII letters. The model does not capture those inputs.
- Telegram's splitting of a command into `context.args` happens outside both files. Arguments are any sequence of strings.
- `CourseCatalog.LookupByStoredName`: the stored name is found when given as one argument. Telegram passes the command's words, so a name holding a run of inner whitespace is not findable that way (`CourseCatalog.LookupMissesWhitespaceRun`); `CourseCatalog.LookupByWords` covers names whose words are separated by single spaces.
- `CourseBot.AddConversation`: its lookup clause passes the stored name as one argument. With a run of inner whitespace in the name, typing the name's words finds nothing; see `CourseCatalog.LookupMissesWhitespaceRun`.
- setup_and_run.py: it only installs packages and starts a process.
