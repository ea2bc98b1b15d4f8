# StudyFlow task list, theme and utilities — a Dafny model

This project models the part of the StudyFlow browser application that has
behaviour worth stating: the task list kept by `TaskManager` in
`features.js` (load, add, update, delete), the light/dark switch of
`ThemeManager`, the icon lookup of `NotificationManager.getIcon`, and the
pure helpers of `Utils` in `utils.js` (the `localStorage` adapter, input
sanitising, e-mail validation, colour lightening and contrast choice).

How the JavaScript is represented:

- A task is a JavaScript object, so it is a `map<string, Value>`
  (`Tasks.Task`). Object spread `{...a, ...b}` is map union `a + b`, later
  properties winning. Property values are `null`, booleans, integers and
  strings (`Tasks.Value`).
- `localStorage` is the class `WebStorage.Store` with one field,
  `items: map<string, string>`. Whether the browser raises on a call
  (storage disabled, quota exceeded) is the `fault` argument of each call.
- `JSON.stringify` and `JSON.parse` are functions the caller passes in:
  `encode: V -> Option<string>` and `decode: string -> Option<V>`, `None`
  standing for the exception.
- The `taskId` of `updateTask` and `deleteTask` is any property value or
  `undefined`: an `Option<Value>`, `None` standing for `undefined`.
- `crypto.randomUUID()` and `new Date().toISOString()` are the `id` and
  `now` arguments of `AddTask` and `UpdateTask`.
- `TaskManager` and `ThemeManager` are classes whose methods change their
  fields; their contracts give the new field values in terms of the old ones
  and of the pure functions in module `Tasks`, about which the lemmas are
  proved.
- The JavaScript built-ins that decide edge cases are written out in
  `JsBuiltins`: the white-space class `\s`, `parseInt(s, 16)` (leading
  white space, sign, `0x` prefix, longest run of hex digits, NaN as `None`),
  ToInt32 as applied by `>>` and `&`, `toString(16)`, `replace` with a
  string pattern (first occurrence only) and `substr`.
- JavaScript truthiness is kept: an empty stored string counts as missing in
  `storage.get`, in `loadTasks` and in the `ThemeManager` constructor.

The configuration in `js-config.js` lists the statuses `todo` ('To Do'),
`in_progress` and `completed` (js-config.js:40-42) and the limits
`MAX_TASKS: 1000`, `MAX_TITLE_LENGTH: 100` and `MAX_DESCRIPTION_LENGTH: 1000`
(js-config.js:44-46), but the task code does not use them, and the model
follows the code: `addTask` sets `status` to `'pending'`, which is none of
the configured statuses, sets no `updatedAt`, and checks no capacity, title
length or category; a caller-supplied `id` in `taskData` wins over the
generated one; `updateTask` lets `updates` replace any property, `id`
included, except `updatedAt`, which it always sets to the current time
(features.js:110); `deleteTask` removes every task with the id.

## Model

| member | source | states |
|---|---|---|
| Tasks.NewTask | features.js:88-94 | the new record has `status` 'pending', `progress` 0 and `createdAt` = now whatever `taskData` holds; every other `taskData` property, `id` included, is kept; the generated id is used only when `taskData` has none; no `updatedAt` appears unless `taskData` had one |
| Tasks.Merged | features.js:107-111 | keys in `updates` take the new values, other keys keep their old values, `updatedAt` is the supplied time, and no other key appears |
| Tasks.MergedTwice | features.js:107-111 | merging `u1` then `u2` equals one merge of `u1 + u2` stamped with the later time |
| Tasks.HasId | features.js:104 | `task.id === taskId` for any `taskId`, `None` standing for `undefined`: a task with an `id` matches exactly that value (a number matches a numeric `id`), and a task without `id` matches exactly `undefined`; `Tasks.FindIndex` and `Tasks.Without` use it |
| Tasks.FindIndex | features.js:104 | the index of the first task whose `id` is `taskId`, or -1 exactly when none is |
| Tasks.FirstMatch | features.js:104 | the first matching position is the index found |
| Tasks.Update | features.js:104-111 | throws "Task not found" exactly when no task matches; otherwise the length is kept, only the first match changes, and it becomes its merge with `updates` |
| Tasks.UpdateTwice | features.js:103-111 | two successful updates of one task (the first not touching `id`) equal one update with the union of both sets |
| Tasks.Without | features.js:118 | no survivor carries the id and the list never grows |
| Tasks.WithoutMembers | features.js:118 | a task survives exactly when it was in the list and does not carry the id |
| Tasks.WithoutConcat | features.js:118 | filtering distributes over concatenation, so survivors keep their order |
| Tasks.WithoutAbsent | features.js:118 | deleting an id no task carries leaves the list unchanged |
| Tasks.DeleteUndefined | features.js:117-118 | `deleteTask(undefined)`, as `taskElement.dataset.id` gives for an element without `data-id` (features.js:128), keeps exactly the tasks that have an `id` |
| Tasks.UpdateUndefined | features.js:103-105 | `updateTask(undefined, …)` throws "Task not found" exactly when every task has an `id`, so a task without `id` is updated in its place |
| Tasks.WithoutIdempotent | features.js:118 | deleting twice equals deleting once |
| Features.TaskManager.constructor | features.js:66-70 | starts with no tasks and the fixed category and priority lists |
| Features.TaskManager.LoadTasks | features.js:77-85 | `tasks` is the decoded `tasks` item; `[]` when the item is missing or empty, when reading throws or when decoding throws; the same as `storage.get('tasks', [])` |
| Features.TaskManager.AddTask | features.js:87-101 | returns the built record and the list becomes that record followed by the old list |
| Features.TaskManager.UpdateTask | features.js:103-115 | with no match returns the "Task not found" error and leaves the list alone; otherwise the list becomes `Tasks.Update`'s result |
| Features.TaskManager.DeleteTask | features.js:117-121 | the list becomes the old list without the tasks carrying the id |
| Features.AddThreeNewestFirst | features.js:96 | adding A, B, C to a fresh manager gives [C, B, A] |
| Features.InitialTheme | features.js:193 | the stored theme when it is a non-empty string, 'light' otherwise |
| Features.Toggled | features.js:201 | the result is 'light' or 'dark', and 'dark' exactly when the theme was 'light' |
| Features.ToggleTwice | features.js:200-204 | two toggles from 'light' or 'dark' restore it |
| Features.ToggleTwiceUnknown | features.js:201 | any other theme becomes 'light' and then 'dark', so it is not restored |
| Features.ThemeManager.constructor | features.js:192-194 | the theme is `Features.InitialTheme` of the store |
| Features.ThemeManager.ToggleTheme | features.js:200-204 | the theme flips; the new theme is stored under `theme` unless `setItem` throws, in which case the flip stays and the store is unchanged |
| Features.GetIcon | features.js:180-188 | a known kind gives its icon and every other kind the info icon |
| WebStorage.Store.GetItem | utils.js:28 | the stored string or `null` for a missing key; nothing when the medium raises |
| WebStorage.Store.SetItem | utils.js:18 | exactly one key replaced, or nothing changed when the medium raises |
| WebStorage.Store.RemoveItem | utils.js:38 | exactly one key gone, or nothing changed when the medium raises |
| Storage.Set | utils.js:16-24 | returns true exactly when encoding and writing both succeed; then the key holds the encoding, otherwise the store is unchanged |
| Storage.Read | utils.js:26-34 | what `get(key, default)` returns for given store contents: the default on a raising medium, a missing or empty item or a failed decode, the decoded item otherwise; the `Storage.Read…` lemmas state its properties |
| Storage.Get | utils.js:26-34 | returns what `Storage.Read` gives for the current store: never throws |
| Storage.Remove | utils.js:36-44 | returns true exactly when the medium did not raise; then the key is gone, otherwise the store is unchanged |
| Storage.ReadMissing | utils.js:26-34 | a missing key or a raising medium gives the default |
| Storage.ReadUndecodable | utils.js:29-33 | an item whose decoding throws gives the default |
| Storage.ReadAfterWrite | utils.js:16-33 | after a successful write of a value that round-trips through JSON, reading gives the value |
| Storage.ReadAfterRemove | utils.js:26-44 | after a successful remove, reading gives the default |
| Storage.ReadOtherKey | utils.js:16-44 | writing or removing one key does not change what any other key reads as |
| Storage.SetThenGet | utils.js:16-34 | `get` after a successful `set` of a round-tripping value returns it; after a failed `set` it returns what it did before |
| Storage.RemoveThenGet | utils.js:26-44 | `get` after a successful `remove` returns the default |
| Validation.SanitizeInput | utils.js:115-117 | the output holds no `<` or `>`, is never longer and holds only characters of the input |
| Validation.SanitizeConcat | utils.js:115-117 | sanitising distributes over concatenation, so every other character is kept in order |
| Validation.SanitizeFixedPoint | utils.js:115-117 | a string is unchanged exactly when it holds no angle bracket |
| Validation.SanitizeIdempotent | utils.js:115-117 | sanitising twice equals sanitising once |
| Validation.MatchesEmailPattern | utils.js:108 | the regular expression read as a split into local part, `@`, name, `.` and suffix, each non-empty and free of white space and `@` |
| Validation.IsValidEmail | utils.js:107-109 | the search-free check of `isValidEmail`; `Validation.ValidEmailIsPattern` proves it accepts exactly what the regular expression matches |
| Validation.ValidEmailIsPattern | utils.js:107-109 | the character-level check accepts exactly the strings `^[^\s@]+@[^\s@]+\.[^\s@]+$` matches |
| Validation.ValidEmailShape | utils.js:107-109 | an accepted address has no white space, exactly one `@` with a non-empty local part, and a `.` in the domain with a character on each side |
| JsBuiltins.IsSpace | utils.js:108 | the class `\s`: the white-space and line-terminator characters of ECMAScript; `Validation.IsValidEmail` and `JsBuiltins.TrimStart` use it |
| JsBuiltins.ParseIntHex | utils.js:142 | NaN exactly when no hex digit follows the white space, sign and `0x` prefix |
| JsBuiltins.ParseTrimmed | utils.js:142 | once leading white space is gone: NaN exactly when no hex digit follows the sign and `0x` prefix |
| JsBuiltins.TrimStartSpaces | utils.js:142 | trimming a run of white space followed by a non-space gives exactly what follows |
| JsBuiltins.ParseIntHexSkipsSpace | utils.js:142 | leading white space does not change what `parseInt` reads |
| JsBuiltins.ParseIntHexOfSigned | utils.js:142 | a sign, an optional `0x`/`0X` prefix, a complete run of hex digits `h` and any rest parse to the value of `h`, negated for `-` |
| JsBuiltins.ParseIntHexOfParts | utils.js:142 | `parseInt(w + sign + prefix + h + rest, 16)` with `w` white space, `h` the whole run of hex digits and a bare `0` not followed by `x`/`X` is the value of `h`, negated exactly for a `-` sign |
| JsBuiltins.ParseIntHexOfDigits | utils.js:153-155 | a string of hex digits parses to the number it denotes |
| JsBuiltins.ToInt32 | utils.js:144-146 | the operand of `>>` and `&` lies in the signed 32-bit range, is congruent to the number modulo 2^32, and equals the number when it already lies in the range |
| JsBuiltins.ToString16 | utils.js:147-149 | `n.toString(16)` for a non-negative integer, at least one digit; its digits and value are stated by `JsBuiltins.ToString16Reads` |
| JsBuiltins.ToString16Reads | utils.js:147-149 | `toString(16)` writes lower-case hex digits with no leading zero that read back as the number |
| JsBuiltins.ReplaceFirst | utils.js:142 | `replace('#', '')` removes only the first `#` and changes nothing when there is none |
| JsBuiltins.Substr | utils.js:153-155 | `substr(start, length)` is the `length` characters at `start` when they exist, the tail from `start` when fewer remain, and empty when `start` is past the end; never longer than `length` |
| Colors.Channels | utils.js:144-146 | the three fields `num >> 16`, `num >> 8 & 0x00FF` and `num & 0x0000FF`; `Colors.ChannelsSplit` states their ranges and recombination |
| Colors.ChannelsSplit | utils.js:144-146 | the two low fields are bytes, and `high * 0x10000 + mid * 0x100 + low` gives the word back |
| Colors.Word | utils.js:142-146 | the parsed colour as the bitwise operators see it, in the signed 32-bit range |
| Colors.WordOfHexColour | utils.js:142 | `#rrggbb` reads as the number its six digits denote, below 0x1000000 |
| Colors.ChannelsOfHexColour | utils.js:144-146 | the three fields `lighten` reads from `#rrggbb` are the values of its three digit pairs |
| Colors.Clamp | utils.js:147-149 | 255 from 255 up, 0 below 1, the value itself in between |
| Colors.LightenWord | utils.js:144-149 | each output channel is the input field plus `amt`, clamped, written as two lower-case digits after `#` |
| Colors.Encode | utils.js:147-149 | `'#' + (0x1000000 + …).toString(16).slice(1)` is `#` and the two digits of each channel |
| Colors.Lighten | utils.js:141-150 | the result is `#` followed by exactly six lower-case hex digits |
| Colors.PairValue | utils.js:144-146 | the value of a two-digit pair, below 256 |
| Colors.LightenWordOfPairs | utils.js:144-149 | lightening the word of six hex digits adds `amt` to each pair's value, clamps it and writes it as two lower-case digits |
| Colors.LightenOfHexColour | utils.js:141-150 | `lighten('#' + rr + gg + bb, …)` is `#` followed, for each pair, by its value plus `amt` clamped to [0, 255] as two lower-case digits |
| Colors.LightenByZero | utils.js:141-150 | lightening a six-digit colour by 0 returns it in lower case |
| Colors.Brightness | utils.js:156 | the YIQ sum `299 r + 587 g + 114 b` before the division by 1000; used by `Colors.GetContrastColor` |
| Colors.GetContrastColor | utils.js:152-158 | the result is '#000000' or '#FFFFFF' |
| Colors.ContrastOfHexColour | utils.js:152-158 | on `#rrggbb` the result is '#000000' exactly when `299r + 587g + 114b >= 128000` |
| Colors.ContrastMonotone | utils.js:152-158 | raising any channel never turns '#000000' into '#FFFFFF' |

## Left out

- Colors.Lighten: its own contract states only the output format; the per-channel clamp is stated by `Colors.LightenWord`, which `Lighten` applies to `Colors.Word(color)`, and on `#rrggbb` by `Colors.LightenOfHexColour`.
- Colors.Lighten: takes `amt`, the already rounded `Math.round(2.55 * percent)`, because the floating-point step is not modelled.
- JsBuiltins.ParseIntHex: its own contract states only when the result is NaN; the value is stated by `JsBuiltins.ParseIntHexOfParts` for inputs split into white space, sign, prefix, digits and rest.
- JsBuiltins.ParseIntHex: the value is exact; JavaScript rounds numbers above 2^53 (more than 13 hex digits) before `>>` sees them.
- Colors.GetContrastColor: strings are sequences of Unicode scalar values, while `substr` counts UTF-16 code units; they differ once a character outside the Basic Multilingual Plane comes before or inside the pairs read, so on `"#a😀ff00"` the model answers '#000000' but JavaScript reads the pairs `a\uD83D`, `\uDE00f` and `f0` and answers '#FFFFFF'.
- JsBuiltins.Substr: counts Unicode scalar values, not UTF-16 code units, so positions after a character outside the Basic Multilingual Plane differ from JavaScript's; the same holds for `length`, indices and `replace` elsewhere in the model.
- Colors.GetContrastColor: the comparison `sum / 1000 >= 128` is done as `sum >= 128000`, which is exact for the integer channels `parseInt` yields.
- Features.GetIcon: lookup through `Object.prototype` (a type such as `"toString"` finds an inherited function) is not modelled; every kind outside the table falls back to the info icon.
- Features.ThemeManager.constructor: a `getItem` that throws would make the JavaScript constructor throw; the model reads the store without a fault.
- `saveTasks`, `updateUI`, `showAddTaskModal`, `showEditTaskModal`, `confirmDeleteTask` and `toggleTaskCompletion` are called in features.js but their bodies are not shown there (features.js:141); they are not part of this model, so the task methods change only the list and persistence after a change is not modelled.
- Decoded task data is a sequence of task records: a stored JSON value that is not an array of objects, property values that are arrays, objects, fractional numbers or `undefined` (a `taskData` or `updates` property set to `undefined` is copied by the spread, features.js:90 and features.js:109, and such a property is neither missing nor any `Tasks.Value`), and the order of an object's keys are not represented.
- Features.TaskManager.AddTask: returns the record as a value; in JavaScript the returned object is the same object as `tasks[0]` (features.js:96-100), so later changes through it alias the list, which is not modelled.
- `async`/`await`: every operation is synchronous here.
- `console.error` logging in the `catch` blocks: output only.
- `AppFeatures`, `TaskManager.initialize`, `setupTaskListeners`, `ThemeManager.initialize`/`applyTheme`, `NotificationManager.show`: DOM wiring and timers.
- `PomodoroTimer`: its implementation is not shown (features.js:156).
- `Utils.formatDate`, `validation.isValidDate`: locale and date parsing.
- `Utils.dom`, `Utils.performance` (`debounce`, `throttle`), `Utils.errorHandler`: DOM, timers and console output.
- script.js (navigation, service worker, event handlers) and the constants of js-config.js: no behaviour in the core depends on them; in particular no shown code enforces `MAX_TASKS` or the title and description limits.
- Unique ids: the ids are parameters and nothing in the code ensures they differ, so uniqueness is not claimed.
