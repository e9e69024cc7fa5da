# ECEBot course-role core, modelled in Dafny

ECEBot is a Discord bot for a university engineering server. Members pick
course roles, and the bot creates each course's role, its area category and
its text channels the first time someone asks for them. This project models
the bot's core and proves properties about it. It covers:

- **Course catalog** (`course_creation.dfy`, module `CourseCreation`). The
  loader reads `courses.toml`. Every key is either an `area-<N>` number or a
  minor/certificate id, and every course code goes into a level list. The
  level comes from the first match of `[A-Z]{3}([12345ABCD])\d\d`, where
  UTSC-style letters A–D mean levels 100–400. The loader sorts each level
  list. `amc_name` and `course_amc` are modelled.
- **Provisioning** (`add_course`). It finds or creates the course role, the
  area/minor/certificate category and the two channels `<course>` and
  `<course>-hw-help`, each with the permission overwrites the code sets. The
  guild is a `Guild` class whose `create_*` and `delete` methods change its
  role, category and channel sequences.
- **Self-service** (`self_role.dfy`). This covers the subsequence matcher
  `indexes_of`, the `course_complete` autocompleter and the `/course_role`
  toggle command.
- **Selector views** (`role_assignment.dfy`). This covers `LevelView`, the
  dropdown callback `CourseSelect.callback`, and `load_guilds`. At startup,
  `load_guilds` re-attaches the category picker to every message recorded in
  `messages.json`.
- **Message registration** (`message_sending.dfy`). `MessageModal.on_submit`
  posts the picker and records its id in `messages.json`.
- **Teardown** (`setup_teardown.dfy`). `/teardown category` deletes a
  category and its channels. `/teardown roles` deletes every role that
  matches a regex.

Shared pieces:

- `utils.dfy`: the category key and the level type.
- `builtins.dfy`: the Python built-ins the code relies on. Laws are proved
  for the `int`/`str` round trip, `str.find`, `list.sort` (a sorted
  permutation under any total preorder), `repr` of plain strings, and
  filtering. `str.join` is only defined.
- `guilds.dfy`: the guild and the member.

Each operation that changes state is a method. Its `ensures` ties the new
state and the result to a specification function of the old state, and the
properties are lemmas about those functions. The transport is a parameter
of the model:

- A Discord call's success is a Fetch value, or an `Option` for a sent
  message.
- `re.search` is a predicate.
- `messages.json` is a `RegistryFile` value.

Behaviour of the code worth noting:

- `add_course` looks for existing channels only inside the course's
  category, and the channel list it returns is always empty. No caller uses
  that list.
- `add_course` has no "on demand" parameter. The call at
  `ECEBot/controller/role_assignment.py:93` passes one anyway (see Findings).
- A failing course code in `load_course_info` raises after the earlier keys
  are already stored in the global tables. The catalog is left partial, not
  empty (`LoadAllErrorSticks`).
- `load_guilds` writes `messages.json` in its `finally` clause. A missing
  file or malformed JSON therefore leaves `{}` behind. Any exception other
  than `NotFound` escapes after the dict has been written back.
- `Setup.channels` and `Setup.roles` have empty bodies, so there is nothing
  to model.

## Model

| member | source | states |
|---|---|---|
| CourseCreation.SearchCode | ECEBot/controller/course_creation.py:42 | the result is the leftmost position at or after the start where the course-code pattern matches; None exactly when it matches nowhere there |
| CourseCreation.ClassifyLeftmost | ECEBot/controller/course_creation.py:42-49 | the level is read from the level character of the leftmost match; classification fails exactly when the pattern matches nowhere |
| CourseCreation.ClassifyExamples | ECEBot/controller/course_creation.py:42-49 | for codes at the start of the string, digits give their hundreds and the UTSC letters A, B, C and D give 100, 200, 300 and 400 |
| CourseCreation.ClassifyExamplesEdge | ECEBot/controller/course_creation.py:42-49 | a code embedded after other letters is still found, a UTSC letter gives its level, and a lower-case code fails |
| CourseCreation.FillLevels | ECEBot/controller/course_creation.py:41-50 | the loop builds exactly the level lists of the specification, stopping at the first invalid code |
| CourseCreation.FillMatches | ECEBot/controller/course_creation.py:41-50 | without an error, each level list holds the courses of that level (as a multiset), every level with courses has a list, and no level is repeated or empty |
| CourseCreation.FillInOrder | ECEBot/controller/course_creation.py:41-50 | each level list is exactly that level's courses in input order; after a failing code, the partial lists left behind are those of the courses before it |
| CourseCreation.FillErrorSticks | ECEBot/controller/course_creation.py:43-44 | once a code fails, later courses change nothing |
| CourseCreation.SortLevels | ECEBot/controller/course_creation.py:51-52 | the method produces the sorted level lists of the specification |
| CourseCreation.SortBucketsMatch | ECEBot/controller/course_creation.py:51-52 | sorting keeps each level's courses as a permutation and leaves every list sorted |
| CourseCreation.CourseInfo.LoadCategory | ECEBot/controller/course_creation.py:33-52 | one key of the document updates the name tables and the category's level lists as the specification says |
| CourseCreation.CourseInfo.LoadCourseInfo | ECEBot/controller/course_creation.py:29-52 | the whole load equals the specification: keys in document order, stopping at the first error |
| CourseCreation.LoadKeyNames | ECEBot/controller/course_creation.py:34-40 | an `area-` key whose number does not parse fails and changes nothing; an area key sets `AREAS[n]`, any other key sets `MINORS_CERTS[key]`; other categories' lists are untouched |
| CourseCreation.LoadKeyBuckets | ECEBot/controller/course_creation.py:33-52 | after a successful key, its category holds level lists that match its courses and are sorted |
| CourseCreation.SetEntryLookup | ECEBot/controller/course_creation.py:40 | the assignment `COURSES[category] = …` is read back and leaves other keys alone |
| CourseCreation.SetEntryTwice | ECEBot/controller/course_creation.py:40 | a second assignment to the same key overrides the first |
| CourseCreation.LoadAllErrorSticks | ECEBot/controller/course_creation.py:29-52 | after a failed key the rest of the document changes nothing; earlier keys stay stored |
| CourseCreation.LoadAllMonotone | ECEBot/controller/course_creation.py:29-52 | loading only adds names and categories |
| CourseCreation.LoadAllEntries | ECEBot/controller/course_creation.py:29-52 | after a successful load, every key of the document has an entry |
| CourseCreation.AmcNameArea | ECEBot/controller/course_creation.py:58-62 | an area's name is "Area " followed by its number, which reads back as that number, and `area-<n>` parses to that area |
| CourseCreation.CourseAmc | ECEBot/controller/course_creation.py:64-70 | None (the ValueError) exactly when no category lists the course; otherwise the first category, in catalog order, that lists it |
| CourseCreation.AddCourse | ECEBot/controller/course_creation.py:86-132 | the provisioning method leaves the guild and the result of the specification |
| CourseCreation.EnsureRoleFacts | ECEBot/controller/course_creation.py:100-106 | the role of that name is reused if present, otherwise appended with a fresh id; nothing else changes |
| CourseCreation.EnsureCategoryFacts | ECEBot/controller/course_creation.py:108-115 | the category of that name is reused if present, otherwise appended with the three overwrites; nothing else changes |
| CourseCreation.EnsureChannelsFrame | ECEBot/controller/course_creation.py:117-131 | creating channels only appends channels in the given category, with the given overwrites and a listed name; roles and categories are kept |
| CourseCreation.EnsureChannelsValid | ECEBot/controller/course_creation.py:117-131 | creating channels keeps every id unique and below the next id |
| CourseCreation.CreateCourseChannels | ECEBot/controller/course_creation.py:117-131 | the channel loop leaves the guild the channel specification gives for `<course>` and `<course>-hw-help` |
| CourseCreation.EnsureChannelsPresent | ECEBot/controller/course_creation.py:117-131 | afterwards each listed name is a channel of the category |
| CourseCreation.EnsureChannelsCreatesMissing | ECEBot/controller/course_creation.py:118-131 | each channel is created only when the category has no channel of that name at that moment, counting channels made earlier in the loop |
| CourseCreation.EnsureChannelsOnlyMissing | ECEBot/controller/course_creation.py:118-131 | no created channel has a name the category already had before the loop |
| CourseCreation.EnsureChannelsNoop | ECEBot/controller/course_creation.py:120-123 | when every name is already there, nothing is created |
| CourseCreation.AddCourseEffects | ECEBot/controller/course_creation.py:86-132 | the assert fails exactly when the AMC role is missing, and then nothing changes; otherwise the role and category are reused or created, channels are only appended inside the category with the course overwrites and only for names the category lacked, both course channels exist, and the returned list is empty |
| CourseCreation.AddCourseRole | ECEBot/controller/course_creation.py:89-106 | the assert fails exactly when the AMC role is missing, and then nothing changes; otherwise the returned role is the first role named after the course |
| CourseCreation.AddCourseValid | ECEBot/controller/course_creation.py:86-132 | provisioning keeps every id unique and below the next id |
| CourseCreation.AddCourseIdempotent | ECEBot/controller/course_creation.py:86-132 | provisioning the same course twice changes nothing the second time and returns the same role |
| Guilds.Guild.CreateRole | ECEBot/controller/course_creation.py:103-106 | a new role with a fresh id is appended, and nothing else changes |
| Guilds.Guild.CreateCategory | ECEBot/controller/course_creation.py:111-115 | a new category with the given overwrites is appended |
| Guilds.Guild.CreateTextChannel | ECEBot/controller/course_creation.py:125-131 | a new channel in the category with the given overwrites is appended |
| Guilds.Guild.DeleteRole | ECEBot/cmd/setup_teardown.py:57 | `role.delete()` removes exactly the roles with that id and changes nothing else |
| Guilds.Guild.DeleteChannel | ECEBot/cmd/setup_teardown.py:44 | `channel.delete()` removes exactly the channels with that id and changes nothing else |
| Guilds.Guild.DeleteCategory | ECEBot/cmd/setup_teardown.py:45 | `cat.delete()` removes exactly the categories with that id, and reports whether one existed |
| Guilds.WithRoleValid | ECEBot/controller/course_creation.py:103-106 | appending a role keeps ids unique and below the next id |
| Guilds.WithCategoryValid | ECEBot/controller/course_creation.py:111-115 | appending a category keeps ids unique and below the next id |
| Guilds.WithChannelValid | ECEBot/controller/course_creation.py:125-131 | appending a channel keeps ids unique and below the next id |
| Guilds.FilterRolesValid | ECEBot/cmd/setup_teardown.py:55-58 | deleting roles keeps ids unique and below the next id |
| Guilds.FilterChannelsValid | ECEBot/cmd/setup_teardown.py:43-44 | deleting channels keeps ids unique and below the next id |
| Guilds.FilterCategoriesValid | ECEBot/cmd/setup_teardown.py:45 | deleting a category keeps ids unique and below the next id |
| Guilds.Member.Toggle | ECEBot/cmd/self_role.py:95-104 | a held role is removed and a missing one added; the result says which |
| Builtins.Find | ECEBot/cmd/self_role.py:32-37 | `str.find`: the leftmost index at or after the start holding the character, or -1 exactly when there is none |
| SelfRole.IndexesOf | ECEBot/cmd/self_role.py:16-42 | the loop returns the indexes of the specification, including the early `[]` returns |
| SelfRole.IndexesOfMatches | ECEBot/cmd/self_role.py:16-42 | the result is non-empty exactly when the search is non-empty and embeds in the value as a non-decreasing index sequence; it is then the greedy leftmost such sequence |
| SelfRole.MatchFromSound | ECEBot/cmd/self_role.py:36-41 | every index sequence found is an embedding, leftmost from the start |
| SelfRole.MatchFromComplete | ECEBot/cmd/self_role.py:36-41 | if any embedding starts at or after the position, the search finds one |
| SelfRole.IndexesOfExampleSdmsg | ECEBot/cmd/self_role.py:21-22 | 'sdmsg' in 'send_message' gives [0, 3, 5, 7, 10] |
| SelfRole.IndexesOfExampleSen | ECEBot/cmd/self_role.py:23-24 | 'sen' gives [0, 1, 2] |
| SelfRole.IndexesOfExampleOdmsg | ECEBot/cmd/self_role.py:25-26 | 'odmsg' gives [] (no "o") |
| SelfRole.IndexesOfExampleSgm | ECEBot/cmd/self_role.py:27-28 | 'sgm' gives [] (out of order) |
| SelfRole.IndexesOfExampleRepeat | ECEBot/cmd/self_role.py:36-41 | because `find` starts at the previous hit, 'ss' matches 's' at [0, 0] |
| SelfRole.LevelCoursesMembers | ECEBot/cmd/self_role.py:53-54 | the flattened level lists hold exactly the courses of some level |
| SelfRole.AllCoursesAmc | ECEBot/cmd/self_role.py:82-84 | a course is in the catalog's flattened set exactly when `course_amc` finds a category for it |
| SelfRole.CourseComplete | ECEBot/cmd/self_role.py:44-68 | the autocompleter returns the specification: upper-cased query, first 25 distinct accepted courses, sorted by (match indexes, code) |
| SelfRole.CollectFacts | ECEBot/cmd/self_role.py:55-62 | at most 25 choices, no duplicates, each a catalog course that the query accepts |
| SelfRole.CollectPrefix | ECEBot/cmd/self_role.py:60-62 | collecting a prefix gives a prefix of the result, and once 25 are found later courses add nothing (the `break`) |
| SelfRole.CollectAllWhenFew | ECEBot/cmd/self_role.py:55-62 | with fewer than 25 choices, every accepted course is among them |
| SelfRole.ChoiceLeTotalPreorder | ECEBot/cmd/self_role.py:64 | the sort key (index list, then code) is a total preorder |
| SelfRole.CourseCompleteCorrect | ECEBot/cmd/self_role.py:50-64 | the choices are sorted by the key, form a permutation of the collected courses, number at most 25, are accepted catalog courses, and include every accepted course when fewer than 25 |
| SelfRole.EmptyInputSorted | ECEBot/cmd/self_role.py:58-64 | with empty input every course is accepted with key `[]`, so the choices are in plain code order |
| SelfRole.CourseRole | ECEBot/cmd/self_role.py:74-104 | the command leaves the guild, the member's roles and the reply of the specification |
| SelfRole.CourseRoleRefusals | ECEBot/cmd/self_role.py:79-91 | "no such course" exactly when no role has the course's name and no catalog category lists it; that refusal and the missing-AMC-role one change neither the guild nor the member |
| SelfRole.CourseRoleToggles | ECEBot/cmd/self_role.py:78-104 | an existing role is toggled without touching the guild; whenever a role is given or removed, it is the role now named after the course, it is removed exactly when the member held it, and the member's roles are toggled on it |
| SelfRole.CourseRoleValid | ECEBot/cmd/self_role.py:78-104 | the command keeps the guild's role, category and channel ids unique and below the next id |
| SelfRole.CourseRoleTwice | ECEBot/cmd/self_role.py:94-104 | running the command twice restores the member's roles, leaves the guild as after the first run, and the second reply is the opposite action on the same role |
| RoleAssignment.LevelView | ECEBot/controller/role_assignment.py:61-69 | the view is built as the specification says; None is the KeyError of an unknown category |
| RoleAssignment.AddSelects | ECEBot/controller/role_assignment.py:65-69 | the loop adds one dropdown per level that has courses, in level order, as the specification says |
| RoleAssignment.LevelViewCorrect | ECEBot/controller/role_assignment.py:61-81 | KeyError exactly for unknown categories; otherwise a select exists for a level exactly when that level has courses; selects come in increasing level order, each with that level's courses as options and the "<level>-level courses" placeholder |
| RoleAssignment.SelectsForOrdered | ECEBot/controller/role_assignment.py:65-69 | selects follow the order 100…500 strictly |
| RoleAssignment.Callback | ECEBot/controller/role_assignment.py:84-103 | the dropdown callback, with the evidently intended three-argument `add_course`, leaves the state of the corrected specification |
| RoleAssignment.CallbackCases | ECEBot/controller/role_assignment.py:84-103 | the corrected callback never raises the TypeError; it gives up with nothing changed only when both the course role and the category role are missing; otherwise it toggles the course role, reusing an existing one without touching the guild |
| RoleAssignment.CallbackTwice | ECEBot/controller/role_assignment.py:94-103 | choosing the same course twice restores the member's roles, and the second reply is the opposite action |
| RoleAssignment.CallbackAsWrittenNeverProvisions | ECEBot/controller/role_assignment.py:91-93 | as written, a missing course role always ends in the TypeError with nothing changed; the corrected version never does |
| RoleAssignment.CallbackCounterexample | ECEBot/controller/role_assignment.py:93 | with the "Area 1" role present and "ECE110H1" absent: as written, TypeError; corrected, the new role 1 is given |
| RoleAssignment.LoadGuilds | ECEBot/controller/role_assignment.py:105-137 | the startup loop writes, attaches and ends as the specification says |
| RoleAssignment.LoadItemsErrorSticks | ECEBot/controller/role_assignment.py:116-133 | once an exception escapes the loop, later entries change nothing |
| RoleAssignment.LoadGuildsOnlyDrops | ECEBot/controller/role_assignment.py:105-137 | a missing or malformed file is rewritten as `{}`; otherwise the written data only drops entries |
| RoleAssignment.LoadGuildsCanonical | ECEBot/controller/role_assignment.py:105-137 | take distinct canonical keys and let j be the first entry whose channel or message fails with something other than NotFound. The file written is the entries before j that reached both channel and message, then the untouched rest; the attached messages are those of the kept entries; the load completes exactly when no entry fails |
| RoleAssignment.LoadItemsClean | ECEBot/controller/role_assignment.py:116-133 | when no entry fails, the loop keeps exactly the entries that reached both channel and message and attaches those |
| RoleAssignment.LoadItemsBroken | ECEBot/controller/role_assignment.py:116-133 | when entry j is the first that fails, the loop keeps the reachable entries before it and the untouched rest, and ends with that entry's error |
| Builtins.ParseIntToString | ECEBot/controller/role_assignment.py:117-123 | `int(str(n)) == n`, so a key written by `str` is found again by `del data[str(int(k))]` |
| MessageSending.OnSubmit | ECEBot/cmd/message_sending.py:27-37 | the submission writes the file and ends as the specification says |
| MessageSending.OnSubmitRecords | ECEBot/cmd/message_sending.py:27-36 | recorded exactly when the send succeeded and the file is not malformed; otherwise the file is unchanged; the channel's entry is the new message, other keys keep their entries, and distinct canonical keys stay so |
| MessageSending.PutShape | ECEBot/cmd/message_sending.py:34 | a new key is appended; an existing key keeps its position and every key stays in place |
| MessageSending.PutMembers | ECEBot/cmd/message_sending.py:34 | after `data[k] = v`, `(k, v)` is present and entries under other keys are unchanged |
| MessageSending.PutTwice | ECEBot/cmd/message_sending.py:34 | a second post in the same channel replaces the first record |
| MessageSending.PutKeepsKeys | ECEBot/cmd/message_sending.py:34 | distinct keys stay distinct and canonical keys canonical |
| MessageSending.ChannelKeyCanonical | ECEBot/cmd/message_sending.py:34 | `str(channel.id)` is a canonical key that reads back as the channel id |
| MessageSending.SubmitThenLoad | ECEBot/cmd/message_sending.py:34-36 | after a recorded submission, a startup in which no entry fails and the channel and message are reachable completes and re-attaches that message to its channel |
| SetupTeardown.TeardownRoles | ECEBot/cmd/setup_teardown.py:49-60 | exactly the matching roles are deleted, their names are reported in guild order in the code-block reply, channels and categories are untouched, and ids stay unique and below the next id |
| SetupTeardown.DeleteMatching | ECEBot/cmd/setup_teardown.py:55-58 | the loop over a snapshot of the roles leaves the roles and the names of the one-pass fold, and touches nothing else |
| SetupTeardown.VisitRolesPrefix | ECEBot/cmd/setup_teardown.py:55-58 | after any prefix of the roles, the matching ones in it are deleted and named in order, and the rest are untouched |
| SetupTeardown.TeardownRolesPartition | ECEBot/cmd/setup_teardown.py:55-58 | a role is kept exactly when it does not match and deleted exactly when it does; together kept and deleted are the old roles as a multiset |
| SetupTeardown.TeardownRolesAgain | ECEBot/cmd/setup_teardown.py:55-58 | a second run with the same pattern deletes nothing |
| SetupTeardown.TeardownRolesExample | ECEBot/cmd/setup_teardown.py:55-58 | `^Area` over "Area 1", "Area 2", "ECE110H1" deletes the first two in order and keeps the third |
| SetupTeardown.TeardownCategory | ECEBot/cmd/setup_teardown.py:38-47 | exactly the category's channels are deleted, in guild order, then the category; the reply names the category by its `repr`, a category already gone gives the not-found error, and ids stay unique and below the next id |
| SetupTeardown.DeleteChildren | ECEBot/cmd/setup_teardown.py:43-44 | the loop over a snapshot of the channels leaves the channels and deleted ids of the one-pass fold, and touches nothing else |
| SetupTeardown.VisitChannelsPrefix | ECEBot/cmd/setup_teardown.py:43-44 | after any prefix of the channels, those in the category are deleted in order, and the rest are untouched |
| SetupTeardown.TeardownCategoryLeavesNoChild | ECEBot/cmd/setup_teardown.py:43-45 | afterwards no channel is left in the category, every channel elsewhere is, and nothing is lost or duplicated |
| SetupTeardown.CategoryReplyPlain | ECEBot/cmd/setup_teardown.py:46-47 | when the name needs no escaping, the reply quotes it in single quotes |
| Builtins.ReprPlain | ECEBot/cmd/setup_teardown.py:47 | `repr` of a string of plain printable characters is the string in single quotes |
| Builtins.SortByCorrect | ECEBot/controller/course_creation.py:52 | the sort returns a sorted permutation of its input for any total preorder |

## Left out

- I/O is not modelled. `courses.toml` is given as its parsed key order, and
  `messages.json` as a value that is absent, malformed or a sequence of
  entries. A JSON value that is not an integer is not modelled.
- Discord is not modelled. Its calls are parameters or guild methods. Other
  failures are not modelled: permission errors, rate limits, and an
  interaction that expired after `defer`.
- Concurrency and `await` interleavings are not modelled. Each handler runs
  to completion on its own.
- The bot's other files are outside this model: the client, the file
  watcher, logging and the status presence. `Setup.channels` and
  `Setup.roles` do nothing, so they have no model.
- Only ASCII characters are modelled in many places:
  - `\d` and `[A-Z]` in the course-code regex;
  - `str.upper` and `str.lower`;
  - `int()` on digit strings. Its acceptance of surrounding whitespace,
    `_`, a `+` sign and non-ASCII digits is not modelled.
- Builtins.Repr: non-ASCII characters are kept verbatim. Python may
  escape non-printable ones.
- SetupTeardown.TeardownRoles: the regex engine is a parameter, so an
  invalid pattern's `re.error` is not modelled.
- The `@everyone` role is not among the guild's roles. Deleting it is not
  modelled.
- Guilds.Guild.DeleteCategory leaves other channels' `parent` as it was. Discord
  moves the children of a deleted category out of it. `/teardown category`
  deletes the children first, so no channel is left to move.
- Builtins.SortByCorrect does not state that the sort is stable. The code
  sorts strings by code point, and (index list, code) pairs of distinct
  codes. In both orders only equal elements compare equal, so stability
  cannot be observed.
- SetupTeardown.TeardownCategory handles only text channels. Voice channels
  and other channel types in a category are not modelled.
- RoleAssignment.LevelView: `COURSES[category][level]` on a `defaultdict`
  inserts an empty list, and the model does not record that insert. Nothing
  reads that list. Discord's 25-option limit on a select menu is not
  modelled either.
- The options of `CategoryView` are not modelled. They come from the name
  tables, which are modelled.
- Logging, embeds and the exact reply wording of the toggle commands are
  not modelled. The reply is a value that says which role was given or
  removed.

## Findings

| source | as written | input that shows it | evidently intended | confidence | as-written member | corrected member |
|---|---|---|---|---|---|---|
| ECEBot/controller/role_assignment.py:93 | the callback passes `True` as a fourth argument to `add_course`, which takes three, so the call raises `TypeError` whenever the chosen course has no role yet | guild with only the role "Area 1"; the member picks "ECE110H1" from the Area 1 view | create the course's role and channels, as `/course_role` does with three arguments, then give the role | high (not executed) | RoleAssignment.CallbackAsWritten | RoleAssignment.Callback |
