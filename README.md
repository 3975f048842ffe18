# CozyQuiz account, upload and question rules in Dafny

CozyQuiz is a Flask web application for live quizzes. Its single file,
`index.py`, is mostly HTTP routing, templates and MongoDB calls. Under that
glue are a few decision rules, and this project models and proves them:

- **Upload validation** (`allowedFile`). A profile-picture file name is accepted
  when the text after its last `.`, lower-cased, is `png`, `jpg` or `jpeg`.
- **Answer-list assembly** (`getCorrectOrWrong` and the loop in `newQuestion`).
  The question form sends three parallel lists: answer texts, background
  colours and text colours. They are zipped into an ordered list of answer
  records. Answer `i` is correct when the form carries the key `correct<i>`.
- **Accounts and the login session** (`checkPassword`, `getLoggedUsername`,
  `signup`, `changePassword`, `logout`). The `users` collection is a map from
  user id to `{username, password, profile_pic}`. The Flask session is a map
  whose `"logged"` entry holds the logged-in user's id. Each route is a method
  of the class `Accounts.QuizApp`. Its contract gives the order in which
  rejections are checked, what changes on success, and that nothing changes
  on a rejection.

Files:

- `wrappers.dfy`: `Option`.
- `strings.dfy`: the Python string builtins the rules use. These are
  `str.lower` (ASCII letters), the cut point of `str.rsplit(sep, 1)`, and
  `str(n)` for `n >= 0` with its inverse.
- `uploads.dfy`: `ALLOWED_EXTENSIONS`, the extension, `allowedFile` and examples.
- `questions.dfy`: answer records, the `correct<i>` keys and the assembly loop.
- `passwords.dfy`: an ideal salted password hash.
- `accounts.dfy`: user records, the store invariant, the `QuizApp` class and a
  walkthrough client that uses only the contracts.

Modelling decisions:

- Password hashing is a concrete ideal hash. `Passwords.Hash` stands for
  `generate_password_hash` (index.py:101, 159) and `Passwords.Verify` for
  `check_password_hash` (index.py:27). Their one property,
  `Verify(Hash(p, salt), q)` exactly when `p == q`, is the lemma
  `Passwords.VerifyHash`, which is the row standing for both calls. The salt
  stands for werkzeug's randomness and is a parameter of the methods that hash.
- `Strings.Lower` stands for `str.lower` (index.py:61). It has no contract of
  its own; `Strings.LowerIdempotent` and `Uploads.AllowedFileIgnoresCase` are
  the rows that state what the model relies on.
- MongoDB's `find_one({"username": u})` is a lookup over the map. The class
  invariant `Valid()` keeps usernames unique and non-empty, so at most one
  record can match. `signup` maintains that invariant.
- A new user's id is a parameter that is not yet in the store. This stands for
  the ObjectId that `insert_one` generates.
- The session keeps the user id itself. In the application it is `str(ObjectId)`,
  read back with `ObjectId(...)`.
- Python's `IndexError` is an outcome of `AssembleAnswers`, not a precondition.
  It happens when a colour list is shorter than the answer list.

Two facts about the code that bear on what is modelled:

- `newQuestion` (index.py:234-236) stores only `text`, `bgColor`, `textColor`
  and `correct` for each answer; there is no `number` field.
- `deleteQuestion` (index.py:243-255) checks only that someone is logged in;
  it does not check that the user owns the room.

## Model

| member | source | states |
|---|---|---|
| `Strings.LastIndexOf` | index.py:61 | The cut point of `rsplit('.', 1)`. None exactly when there is no `.`. Otherwise an index holding `.` with no `.` after it. |
| `Strings.Decimal` | index.py:55 | `str(i)` is a non-empty string of digits. It has no leading zero, except that `0` renders as `"0"`. |
| `Strings.ParseDecimalOfDecimal` | index.py:55 | Reading the digits of `str(n)` back gives `n`. |
| `Strings.DecimalOfParseDecimal` | index.py:55 | A canonical numeral is the rendering of the number it reads as, so `str` is onto the canonical numerals. |
| `Strings.DecimalInjective` | index.py:55 | Different numbers render as different strings. |
| `Strings.LowerIdempotent` | index.py:61 | Lower-casing a string twice gives the same as lower-casing it once. |
| `Uploads.Extension` | index.py:61 | `filename.rsplit('.', 1)[1]` is the text after some `.` of the name and holds no `.`. |
| `Uploads.AllowedFile` | index.py:60-61 | Accepted exactly when some `.` has no `.` after it and the lower-cased text after it is `png`, `jpg` or `jpeg` (index.py:11). |
| `Uploads.AllowedFileOfParts` | index.py:60-61 | For `stem + "." + ext` with no `.` in `ext`, acceptance depends only on whether `lower(ext)` is an allowed extension, whatever the stem. |
| `Uploads.AllowedFileIgnoresCase` | index.py:61 | Lower-casing the whole name first does not change the verdict. |
| `Uploads.AcceptsLastExtensionAnyCase` | index.py:60-61 | `a.tar.PNG` is accepted. |
| `Uploads.AcceptsEmptyStem` | index.py:60-61 | `.jpg` is accepted: the text before the dot may be empty. |
| `Uploads.RejectsNoDot` | index.py:60-61 | `png` is refused: it has no dot. |
| `Uploads.RejectsOtherExtension` | index.py:60-61 | `a.gif` is refused. |
| `Uploads.RejectsEarlierExtension` | index.py:60-61 | `<stem>.png.gif` is refused: only the last extension counts. |
| `Uploads.RejectsTrailingDot` | index.py:60-61 | `a.` is refused: its extension is empty. |
| `Questions.CorrectKey` | index.py:55 | The key `f"correct{i}"` is `correct` followed by the canonical numeral of `i`: digits with no leading zero (unless it is `0`) that read back as `i`. |
| `Questions.GetCorrectOrWrong` | index.py:54-57 | Answer `i` is correct exactly when some form key is `correct` followed by the canonical numeral of `i`. A key like `correct07` does not count for answer 7. |
| `Questions.CorrectKeyInjective` | index.py:54-57 | Different answer positions are flagged by different form keys. |
| `Questions.CorrectFlagsIndependent` | index.py:54-57 | Adding the key of answer `j` marks `j` correct and leaves the flag of every other answer unchanged. |
| `Questions.AssembleAnswers` | index.py:229-236 | Fails, raising `IndexError` at the shorter colour list's length, exactly when a colour list is shorter than the answers. Otherwise returns exactly `len(answers)` entries in order. Entry `i` holds `answers[i]`, `bgColors[i]`, `txtColors[i]` and whether `correct<i>` is among the form keys. |
| `Passwords.VerifyHash` | index.py:27 | A stored hash of `p` verifies `q` exactly when `q == p`, whatever the salt. |
| `Accounts.SignupKeepsValid` | index.py:95-102 | Inserting a non-empty, untaken username under a fresh id keeps usernames unique and non-empty. |
| `Accounts.SetPasswordKeepsValid` | index.py:158-159 | Replacing one user's password hash keeps usernames unique and non-empty. |
| `Accounts.QuizApp.CheckPassword` | index.py:24-30 | Returns true exactly when a user with that username has a hash that verifies the password. Only then is `logged` set, to that user's id. On false the session is unchanged. The store is never modified. |
| `Accounts.QuizApp.GetLoggedUsername` | index.py:33-39 | If `logged` names a stored user, returns that username and leaves the session unchanged. If it names no user, returns `''` and removes `logged`. With no `logged`, returns `''`. `''` means no resolvable login. |
| `Accounts.QuizApp.Logout` | index.py:131-135 | Removes `logged` and keeps every other session entry. It is idempotent: without `logged` nothing changes. |
| `Accounts.QuizApp.Signup` | index.py:90-104 | Rejects an empty username first, then a taken username, then an empty password. The store is unchanged on every rejection. On success exactly one record `{username, Hash(password), ''}` is added and usernames stay unique. |
| `Accounts.QuizApp.ChangePassword` | index.py:143-163 | Checks in order: not logged in, empty old password, empty new password, old password fails to verify, old equals new. It succeeds exactly when all checks pass. Only the logged-in user's password hash changes. On a rejection the store is unchanged. The session changes only when a stale `logged` is removed. |

## Left out

- HTTP handling is not modelled: Flask routing, GET handlers, request parsing, `render_template`, `flash` and `redirect`. Route results are outcome values instead. Their comments give the flash message.
- Form fields are assumed present. When `request.form.get` returns `None` (a missing field) the application behaves differently, and that is not modelled.
- MongoDB I/O is not modelled. `find_one`, `insert_one` and `update_one` become operations on the `users` map. The ObjectId that `insert_one` generates (index.py:101) is replaced by a fresh-id parameter. Parsing the session's id with `ObjectId(id)` (index.py:42-43, 47) is replaced by keeping the id itself in the session.
- Accounts.QuizApp.CheckPassword: requires the store invariant (unique usernames). So it does not say which of several same-named users `find_one` would return. `signup` never creates such duplicates.
- The internals of `generate_password_hash` and `check_password_hash` are not modelled. The hash is ideal: no two passwords collide.
- `str.lower` is modelled for ASCII letters only. No other character lower-cases to a letter of `png`, `jpg` or `jpeg`, so the upload verdict is the same.
- The upload route (`uploadProfilePic`, index.py:166-194) and `getProfilePic` (index.py:46-51) are not modelled. They need `secure_filename`, `file.save`, `send_from_directory` and `url_for`, which are foreign library calls and file I/O. Their validation step is `AllowedFile`.
- `showRoom`, `createQuiz` (room insertion and the `room_id` session entry), `deleteQuestion` and inserting the question document are not modelled. They are direct database wrappers with no decision logic.
- The `__main__` seeding block and the unused `Faker` and `HTTPBasicAuth` objects are not modelled.
- Quiz progression, scoring, result aggregation and room joining are not modelled. The code does not implement them.
- Concurrency is not modelled. Each method is one request acting alone on the store. A race between two signups with the same username is not captured.
