# Kivy chat app: data layer and session, in Dafny

This project models the part of the Kivy chat application (`act.py`) that has
real invariants once the widgets are stripped away:

- the **user store**: the `users` table with its UNIQUE `email` column, and
  `insert_user`, `check_user` (plaintext email + password match) and
  `get_users`;
- the **message log**: the `messages` table, `save_message` (append one entry
  stamped with the current time) and `get_messages` (the 50 latest entries,
  oldest first);
- the **input checks** the screens run before touching the store:
  `RegisterScreen.register` strips its fields and rejects an empty name, email
  or password and an email without `@`; `ChatScreen.send_message` drops a
  message that strips to nothing;
- the **session**: the global `current_user`, set by `LoginScreen.login` only
  when `check_user` returns a truthy name, cleared by `ChatScreen.go_back`, and
  tested by `HomeScreen.go_chat` before the chat screen opens.

Tables are immutable `seq` values and every operation is a pure function from
the old table (or session) to the new one. `datetime.now()` is a clock reading
`now: nat` passed in by the caller. Python's `str.strip()` is `Text.Strip`,
which trims exactly the characters `str.isspace()` accepts. Python truthiness
(`if name:`, `if current_user:`) is `Screens.Truthy`: `None` and `""` are false.

Modules, one file each:

- `rows.dfy` (`Rows`): `Option` for NULL and lookups that miss; the id column
  of a table; SQLite's row id rule for an `INTEGER PRIMARY KEY` (largest id
  plus one, 1 for an empty table).
- `text.dfy` (`Text`): the whitespace set (`IsSpace`, `AllSpace`), the two
  cut points of `strip()` (`FirstNonSpace`, `EndOfNonSpace`), `Strip` itself
  and three lemmas about it.
- `users.dfy` (`Users`): the `users` table and its three functions.
- `messages.dfy` (`Messages`): the `messages` table, its ordering and the window.
- `screens.dfy` (`Screens`): registration and send validation, login, the chat
  gate, exit, and the whole app as a state machine over button presses and
  relaunches (the tables persist in `app_data.db`; `current_user` starts as
  `None` on every launch).

`get_messages` sorts by `timestamp` only and SQLite leaves the order of equal
timestamps open. The model breaks ties by row id (insertion order), so the
window is deterministic: `Messages.NoNewer` is that total order.

`act.py` stores and compares passwords as plaintext. It has no minimum
password length, no profile table and no lookup of an email by name.
Registration reports a duplicate email only after the insert fails, and the
phone field may be empty. The model does the same.

## Model

| member | source | states |
|---|---|---|
| Rows.NextRowId | act.py:26-39 | a new row's id is larger than every id already in the table, so it is fresh; it is 1 in an empty table |
| Text.Strip | act.py:194-197 | the stripped text is empty exactly when the input is all whitespace, and otherwise starts and ends with non-whitespace |
| Text.StripCutsOnlySpace | act.py:194-197 | what `strip()` keeps is a contiguous piece of the input and everything removed on either side is whitespace |
| Text.StripIdempotent | act.py:194-197 | stripping twice gives the same text as stripping once |
| Text.StripKeepsTrimmed | act.py:194-197 | text with no whitespace at either end is left exactly as it is |
| Users.InsertUser | act.py:49-59 | the insert succeeds exactly when the email is not yet stored; on failure the table is unchanged; on success exactly one row with the given fields and a fresh id is appended and earlier rows are untouched |
| Users.InsertUserKeepsValid | act.py:26-32 | one insert keeps emails and ids unique |
| Users.InsertAllKeepsValid | act.py:29 | after any sequence of `insert_user` calls no two rows share an email or an id |
| Users.CheckUser | act.py:62-71 | a name is returned exactly when some row matches both email and password, and it is that row's name |
| Users.CheckUserOnRow | act.py:62-71 | with unique emails, the answer for a stored email is that row's name if the password matches and `None` if not |
| Users.FailuresIndistinguishable | act.py:62-71 | `None` comes back exactly for an unknown email or a wrong password; the two failures give the same answer |
| Users.InsertThenCheck | act.py:49-71 | after a successful insert, checking the same email and password returns the inserted name |
| Users.GetUsers | act.py:74-83 | one `(name, email)` pair per row in table order, empty for an empty table; an email is listed exactly when it is stored, and listed emails are distinct when the table's are |
| Users.InsertThenListed | act.py:49-83 | after a successful insert `get_users` lists the earlier pairs unchanged and the new `(name, email)` last; after a failed one it lists the same as before |
| Messages.SaveMessage | act.py:86-97 | exactly one entry with the given sender, body and clock reading and a fresh id is appended; earlier entries are unchanged |
| Messages.SaveMessageKeepsIdsUnique | act.py:34-39 | appending a message keeps message ids unique |
| Messages.GetMessages | act.py:100-109 | at most 50 entries, all of them when there are 50 or fewer, ordered oldest first, drawn from the log, and every entry left out is no newer than every entry returned |
| Messages.NewestShownLast | act.py:104-107 | an entry newer than all others is the last one shown |
| Messages.SavedMessageShownLast | act.py:86-107 | a message saved at a clock reading no earlier than any stored one is the last entry `get_messages` returns afterwards |
| Screens.Register | act.py:193-214 | an empty stripped name, email or password is rejected first, then an email without `@`, and neither reaches the store; otherwise a duplicate email is reported with the table unchanged, or exactly one row with the stripped fields is appended |
| Screens.Login | act.py:250-261 | login never changes whether the chat is open, and `current_user` changes only to the truthy name of a row whose email and password match the stripped input |
| Screens.LoginSucceedsIffMatch | act.py:250-261 | when all stored names are non-empty, `current_user` becomes the matching row's name exactly when a row matches, and the session is otherwise unchanged |
| Screens.LoginFailuresAlike | act.py:250-261 | an unknown email and a wrong password both leave the session as it was |
| Screens.RegisterThenLogin | act.py:193-261 | after a successful registration, logging in with the same email and password text makes the stripped name the current user |
| Screens.GoChat | act.py:150-152 | the chat opens only while `current_user` is truthy, and `current_user` is untouched |
| Screens.ExitChat | act.py:358-361 | `current_user` becomes `None` whatever it was, the chat is closed, and a Chat Room press right after it does nothing |
| Screens.NoChatWithoutLogin | act.py:150-152 | once logged out, no sequence of presses and relaunches without a login sets `current_user` or opens the chat |
| Screens.SendMessage | act.py:348-356 | a message that strips to nothing stores nothing; otherwise exactly one entry with the current user, the stripped non-empty body and the clock reading is appended |
| Screens.RegisterKeepsRowsWellFormed | act.py:193-214 | rows stored through registration have a non-empty name and an email containing `@` |
| Screens.RegisterKeepsInv | act.py:193-214 | a registration keeps the application invariant |
| Screens.SendKeepsInv | act.py:348-356 | sending keeps the application invariant: every stored message has a non-empty body and a registered sender |
| Screens.StepKeepsInv | act.py:17-361 | every button press, and a relaunch, keeps the application invariant |
| Screens.RunKeepsInv | act.py:17-361 | any sequence of button presses and relaunches keeps the application invariant |
| Screens.ReachableStatesSafe | act.py:17-361 | from an empty store, whatever is pressed across any number of launches: emails stay unique, every message shown has a non-empty body and a registered sender, and the chat is open only to a logged-in user |

## Left out

- Store failures: the broad `except` clauses of every data function (connection or disk errors) are not modelled. `insert_user` fails only on the UNIQUE email constraint; the `[]` and `None` answers a failing read gives and the `False` of a failing `save_message` are not represented.
- Rows.NextRowId: does not model SQLite's fallback to a random unused id once the largest id reaches 2^63 - 1, a case no realistic table reaches.
- Messages.Message: the timestamp is a natural-number clock reading supplied by the caller; the text form SQLite stores (`datetime` rendered as ISO text) is assumed to sort in the same order as the clock, which holds for that format.
- Messages.SavedMessageShownLast: the clock is not assumed to be monotone, so the new message is shown last only under the stated condition that its reading is no earlier than any stored one.
- Users.GetUsers: `SELECT name, email FROM users` has no `ORDER BY`; the model returns rows in insertion order, the order SQLite gives for a plain rowid table scan.
- `setup_db`: table creation is represented only by the empty starting state `Screens.Start`.
- check_login.py: an interactive debugging script built on `input` and `print`; its `hash_password` wraps SHA-256 and is not used by the application's login.
- Kivy screens, layout, navigation other than the chat gate, the success and error label texts beyond `Screens.RegisterStatus`, clearing the form after registration, the one-second delay after login and the two-second polling of `load_messages`: user-interface and event-loop plumbing.
- The `HH:MM` timestamp slice shown next to each message: display formatting only.
- Screens.Step: Send and Exit Chat are modelled as doing nothing outside the chat screen, since their buttons exist only there.
