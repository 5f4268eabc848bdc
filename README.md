# Display helpers of the andyrefined frontend, in Dafny

This project models the display helpers in `frontend/src/helpers/utils.tsx`.
These helpers are the only logic the repository itself writes; the backend is
declarations handed to its web framework. The helpers are:

- `isOwner`: whether the signed-in user owns an album or a quote. Owners are compared by email.
- `renderFullName`: builds a profile heading out of first name, quoted username and last name.
- the nickname builder inside `renderSharedBy`: builds the short "shared by" name. A username replaces the first and last name.
- `isBirthday`: highlights a user whose birthday, in today's calendar year, is from two days past to six days ahead.
- `getNextBirthday`: gives the date of the next birthday. That is this year's, or the following year's once this year's is past.

Modules:

- `Types` (`types.dfy`): the user record the helpers read, and an owned record.
- `Names` (`names.dfy`): `isOwner` and the two name builders. Each builder is a method with a local accumulator, as in the source. Each method is proved equal to a specification function (`FullName`, `Nickname`), and lemmas state what those functions promise.
- `Calendar` (`calendar.dfy`): dates at day granularity in the proleptic Gregorian calendar.
  - A day number counts days from 1 January 1970. The difference of two day numbers stands for dayjs's `diff(…, "day")`.
  - `Before` is dayjs's `isBefore(…, "day")`.
  - `AddYears` is dayjs's `add(n, "year")`. Like dayjs, it clamps the day to the length of the target month.
  - Lemmas tie day numbers to calendar order and to the successor day.
- `DateStrings` (`date_strings.dfy`): the `split("-")` / `Number` parse that takes the month and day of a `YYYY-MM-DD` string. It has a round trip against `join` and against the ISO format in which the API serves dates of birth.
- `Birthdays` (`birthdays.dfy`): `isBirthday` as a function and `getNextBirthday` as a method, with "today" passed in as a parameter.

User name fields are strings in which `""` stands for absent. The helpers only test these fields for truthiness, and an absent field and an empty one are both falsy.

## Model

| member | source | states |
|---|---|---|
| Names.IsOwnerByEmail | frontend/src/helpers/utils.tsx:5-7 | ownership holds exactly when the record owner's email equals the user's; the owner always owns its record; users with equal emails are indistinguishable; the test is symmetric between two users |
| Names.RenderFullName | frontend/src/helpers/utils.tsx:9-15 | the accumulator built by the three conditional appends equals `FullName` |
| Names.FullNameLength | frontend/src/helpers/utils.tsx:10-14 | the full name's length is the sum of each present field plus 1 (first name), 4 (username) and 1 (last name) |
| Names.FullNameEmpty | frontend/src/helpers/utils.tsx:9-15 | the full name is the empty string if and only if first name, username and last name are all absent |
| Names.FullNameLayout | frontend/src/helpers/utils.tsx:10-14 | a present first name and a space open the full name; the quoted, space-padded username follows right after the first piece; a space and a present last name close it |
| Names.RenderNickname | frontend/src/helpers/utils.tsx:18-23 | the accumulator with its username overwrite equals `Nickname`, and equals the username whenever one is present |
| Names.NicknameUsernameWins | frontend/src/helpers/utils.tsx:23 | with a username present, the short name is the username and does not change whatever first and last name hold |
| Names.NicknameWithoutUsername | frontend/src/helpers/utils.tsx:19-22 | with no username, the short name is first name and a space (if present) then last name (if present); its length follows; it is empty exactly when both are absent |
| Names.NicknameAgainstFullName | frontend/src/helpers/utils.tsx:9-23 | with no username, the full name equals the short name except for one extra space before a present last name |
| Calendar.AddYears | frontend/src/helpers/utils.tsx:88 | moving a valid date n years on keeps the month, gives a valid date, and keeps the day except that 29 February becomes 28 February in a common year |
| Calendar.DayNumberOrder | frontend/src/helpers/utils.tsx:87 | for valid dates, a smaller day number means an earlier calendar day and conversely; equal day numbers mean equal dates |
| Calendar.NextDayNumber | frontend/src/helpers/utils.tsx:108-109 | the day after a date, across month and year ends, has the next day number, so a day-number difference counts calendar days |
| Calendar.AddYearDays | frontend/src/helpers/utils.tsx:88 | moving a date one year on advances its day number by the length of the year crossed, one less when 29 February is clamped |
| Calendar.YearsAscend | frontend/src/helpers/utils.tsx:87 | every day of an earlier year has a smaller day number than the first day of a later year |
| DateStrings.SplitCount | frontend/src/helpers/utils.tsx:80 | `split("-")` gives exactly one more piece than the string has separators |
| DateStrings.SplitPiecesHaveNoSep | frontend/src/helpers/utils.tsx:80 | no piece of a split holds the separator |
| DateStrings.JoinSplit | frontend/src/helpers/utils.tsx:80 | joining the pieces of a split with the separator gives the string back |
| DateStrings.SplitJoin | frontend/src/helpers/utils.tsx:102 | splitting undoes joining for separator-free pieces |
| DateStrings.ParseFormatDate | frontend/src/helpers/utils.tsx:102 | the parse of an ISO `YYYY-MM-DD` string yields its month and day, whatever its year |
| Birthdays.Occurrence | frontend/src/helpers/utils.tsx:103-106 | the birth month and day placed in the given year form a valid date of that year |
| Birthdays.IsBirthday | frontend/src/helpers/utils.tsx:96-100 | a user without a date of birth is never highlighted |
| Birthdays.IsBirthdayWindow | frontend/src/helpers/utils.tsx:108-118 | with a date of birth, the highlight holds exactly when this year's occurrence is between 2 days before and 6 days after today, both ends included |
| Birthdays.IsBirthdayIgnoresYear | frontend/src/helpers/utils.tsx:102-106 | two dates of birth with the same month and day give the same highlight; the birth year never matters |
| Birthdays.IsBirthdayOnIsoDates | frontend/src/helpers/utils.tsx:102-118 | for an ISO date of birth whose month and day exist in today's year, the precondition is met, today's own birthday is highlighted, and the window holds on the formatted date |
| Birthdays.NoWrapAtNewYear | frontend/src/helpers/utils.tsx:103-106 | in any year, on 30 December a date of birth on 1 January is not highlighted, although the next 1 January is two days ahead: the window does not wrap across New Year |
| Birthdays.GetNextBirthday | frontend/src/helpers/utils.tsx:78-91 | the date chosen by the reassign-if-past steps equals `NextOccurrence`, is valid, and is never before today |
| Birthdays.NextOccurrenceBounds | frontend/src/helpers/utils.tsx:82-89 | the next birthday is today or up to 365 days ahead; it is in today's year exactly when this year's occurrence is not past, else the next year; it keeps the birth month and the birth day (29 February clamps to 28 February) |
| Birthdays.NextOccurrenceIsEarliest | frontend/src/helpers/utils.tsx:82-89 | every occurrence of the birth month and day that is not before today falls on or after the next birthday |
| Birthdays.IsBirthdayAndNext | frontend/src/helpers/utils.tsx:78-118 | a highlighted birthday still ahead is the next birthday and at most 6 days away; a highlighted one already past is at most 2 days behind, and the next birthday is in the following year |

## Left out

- The backend (`api/models.py`, `api/views.py`, `dantrum/urls.py`, the migrations) is not part of this model. Its ordering, owner injection, cascade deletes, permission checks and user creation are done by the web framework, whose code is not shown.
- `renderBirthday` and `renderAlbumDate` (utils.tsx:64-76) are locale formatting through dayjs and `Intl`. They are not modelled.
- JSX rendering is not modelled: `renderAvatar` and the `Flex`/`Text` wrappers of `renderSharedBy`. Only the nickname string of `renderSharedBy` is modelled.
- GetNextBirthday: returns the chosen calendar date, not the epoch milliseconds `valueOf()` gives. Time of day and time zone are not modelled.
- IsBirthday: `diff(…, "day")` is modelled as the exact difference of day numbers. dayjs truncates a millisecond difference toward zero. The two `dayjs()` calls are milliseconds apart, and daylight-saving offsets can differ, so at the edges dayjs's count can differ by one. This model does not capture that.
- "Today" is a parameter. The clock read by `dayjs()` is not modelled.
- IsBirthday and GetNextBirthday require a birth month and day that exist in today's year. dayjs rolls 29 February over into 1 March in a common year, and does the same with any out-of-range day. That overflow is not modelled.
- DateStrings.ParseNumber: only a non-empty run of decimal digits reads as a number. JavaScript's `Number` also reads `""` as 0 and accepts whitespace, signs, exponents and hexadecimal, or gives `NaN`. Those inputs are outside the preconditions.
- The model follows the frontend code, not the backend's description of a user. That description has a single optional nickname; the frontend code reads `first_name`, `username` and `last_name`.
