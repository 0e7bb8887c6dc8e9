# ustb-wifi-tools: saved settings and the month-by-month history walk

This project models two self-contained parts of the desktop client for the
campus-network self-service portal, and proves properties of them.

1. `setting.dfy`, module `Settings`. It models the saved settings object (`Setting`).
   - `account` is the list of (username, password) pairs, most recently used first.
   - `SetAccount` records a successful login. It finds the first saved entry with the
     same username. If that entry has the same password, it moves to the front. If it
     has another password, it takes the new one and moves to the front. If no entry
     has the username, the new pair is prepended.
   - The pure function `AccountsAfterLogin` specifies `SetAccount`. The lemmas beside it
     cover each of the three cases: the front entry, the length, the order of the other
     entries, the multiset of entries, the set of usernames, uniqueness of usernames
     and idempotence.
   - `HasLocalAccount` looks up a username.
   - `SetMacCustomName` is a map upsert.
   - Each of the other setters writes one optional field. Its `modifies` frame names
     only that field, so every other field stays as it was.
2. `localuser.dfy`, module `Localuser`. It models proleptic Gregorian dates
   `(year, month, day)` with a validity predicate and the leap rule.
   - `FirstDayNextMonth` rolls December over to January of the next year.
   - `LastDayOfMonth` is the day before the first of the next month.
   - `GetHistoricalData` is the `while` loop that walks from a start date up to
     "today". It returns one `(start, last day of the month)` period per calendar month.
     Its contract states:
     - the number of periods;
     - the first period starts at the start date;
     - every later period starts on day 1;
     - each period lies inside one month and ends on that month's last day;
     - consecutive periods are contiguous.

## Model

| member | source | states |
|---|---|---|
| `Settings.IndexOfUser` | src-tauri/src/setting.rs:52-59 | the entry the login loop acts on: the first one whose username matches; None exactly when no entry has that username |
| `Settings.HasUser` | src-tauri/src/setting.rs:72-74 | true iff some saved entry has the username, whatever its password |
| `Settings.Setting.HasLocalAccount` | src-tauri/src/setting.rs:72-74 | true iff the username is among the saved usernames |
| `Settings.RemoveAt` | src-tauri/src/setting.rs:56 | `Vec::remove`: one shorter, entries before the index kept in place, entries after it shifted down by one |
| `Settings.AccountsAfterLogin` | src-tauri/src/setting.rs:51-70 | after a login the front entry is exactly (username, password); the length is unchanged when the username was saved and grows by one otherwise |
| `Settings.LoginWithSavedPair` | src-tauri/src/setting.rs:53-58 | an already saved pair moves to the front, the others keep their order, and the multiset of entries (so every password) is unchanged |
| `Settings.LoginWithChangedPassword` | src-tauri/src/setting.rs:59-65 | a saved username with another password: that entry gets the new password and moves to the front, the others keep their order, the length is unchanged |
| `Settings.LoginWithNewUser` | src-tauri/src/setting.rs:68-69 | a new username is prepended and the old list follows unchanged |
| `Settings.LoginUsernames` | src-tauri/src/setting.rs:51-70 | the saved usernames after a login are exactly the old ones plus the one used, so the username is found afterwards |
| `Settings.LoginKeepsUsernamesUnique` | src-tauri/src/setting.rs:52-69 | if the usernames were pairwise distinct before a login they are after it |
| `Settings.LoginIsIdempotent` | src-tauri/src/setting.rs:51-70 | logging in again with the same pair leaves the list as the first login left it |
| `Settings.Setting.SetAccount` | src-tauri/src/setting.rs:51-70 | the loop's in-place result equals `AccountsAfterLogin` of the old list; the front entry is the pair, the username is found, uniqueness is kept, and no other field changes |
| `Settings.Setting.constructor` | src-tauri/src/setting.rs:25-27 | the default settings: no accounts, no MAC names, every optional field empty |
| `Settings.Setting.SetAmmeterNumber` | src-tauri/src/setting.rs:76-78 | sets the meter number and changes no other field |
| `Settings.Setting.ResetBackgroundImage` | src-tauri/src/setting.rs:103-108 | clears the background image path and changes no other field |
| `Settings.Setting.SetBackgroundTransparence` | src-tauri/src/setting.rs:110-112 | sets the transparency and changes no other field |
| `Settings.Setting.SetBackgroundBlur` | src-tauri/src/setting.rs:114-116 | sets the blur and changes no other field |
| `Settings.Setting.SetMacCustomName` | src-tauri/src/setting.rs:118-125 | afterwards the MAC maps to the name, the key set gains at most that MAC, every other name is unchanged, no other field changes |
| `Settings.Setting.SetCollapsed` | src-tauri/src/setting.rs:127-129 | sets the collapsed flag and changes no other field |
| `Localuser.DaysInMonth` | src-tauri/src/localuser.rs:37-40 | month lengths between 28 and 31; February has 29 days exactly in Gregorian leap years |
| `Localuser.PrevDay` | src-tauri/src/localuser.rs:39 | `pred_opt`: a valid date strictly before the given one |
| `Localuser.NextDay` | src-tauri/src/localuser.rs:38-39 | a valid date strictly after the given one |
| `Localuser.NextPrevInverse` | src-tauri/src/localuser.rs:39 | one day back and one day forward are inverses |
| `Localuser.NextDayIsImmediate` | src-tauri/src/localuser.rs:39 | no valid date lies strictly between a date and the next day |
| `Localuser.FirstDayNextMonth` | src-tauri/src/localuser.rs:42-50 | a valid date on day 1, strictly later than the input, exactly one calendar month on (December rolls into January of the next year) |
| `Localuser.FirstDayNextMonthIsEarliest` | src-tauri/src/localuser.rs:42-50 | no first-of-a-month lies strictly between the date and its result |
| `Localuser.LastDayOfMonth` | src-tauri/src/localuser.rs:37-40 | same year and month as the input, day equal to the month's length under the leap rule, hence not before the input |
| `Localuser.DayAfterLastDayOfMonth` | src-tauri/src/localuser.rs:37-40 | the day after the month's last day is the first day of the next month |
| `Localuser.MonthIndexMonotone` | src-tauri/src/localuser.rs:25 | a date not after another lies in the same or an earlier month |
| `Localuser.GetHistoricalData` | src-tauri/src/localuser.rs:13-34 | the loop terminates; it yields one period per calendar month from the start month to today's month (none if start is after today); the first starts at the start date, later ones on day 1; each lies in one month and ends on its last day; consecutive periods are contiguous |

## Left out

- `load_setting` and `write_setting` are not modelled. They read and write the JSON config file (file I/O and serde, src-tauri/src/setting.rs:29-49).
- `set_background_image_path` is not modelled. It copies an image file and stores the resulting path (file I/O, src-tauri/src/setting.rs:80-101).
- `Settings.Setting.ResetBackgroundImage` models only the field reset. It does not model the best-effort file deletion, which is file-system I/O whose error is ignored.
- `Localuser.GetHistoricalData` takes "today" (`Utc::now()`) and the start date as parameters. It does not model the conversion from a Unix timestamp (`DateTime::from_timestamp`).
- `Localuser.GetHistoricalData` returns the periods as dates. It does not model the `%Y-%m-%d` formatting or the `println!` output, which are only printed. The constant `Ok("")` result is also not modelled.
- The model does not bound the year. chrono's `NaiveDate` has a finite year range, a library constant that is not in the source. In the model, the `unwrap` calls in `get_first_day_next_month` and `get_last_day_of_month` therefore never fail. In the source they panic at the last representable month.
- The session-related code in `get_historical_data` is not modelled. It is commented out in the source (src-tauri/src/localuser.rs:15-20).
- The rest of the repository is outside this model: the portal HTTP requests, the login flows, the OneDrive sync, the electricity bill, the OS MAC lookup, the app wiring and the front end.
