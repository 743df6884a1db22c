# Vet clinic aggregator: a verified model of its deterministic core

The vet clinic aggregator is a React front end over a Django back end. It lists
veterinary clinics, ranks them, keeps a pet's passport and imports clinics from CSV.
This project models the small deterministic pieces of logic inside it and proves
what each one promises. Each module below models one source file, except the shared
`Wrappers`, `Sequences`, `Strings` and `StableSort`.

- `TimeUtils`: `isClinicOpen`. The weekday index and the minute of the day are
  parameters. Each "HH:MM" bound is parsed into an `Option`, and `None` stands for
  JavaScript's `NaN`.
- `ClinicList`: the comparator sort behind `sortedClinics`. Underneath it is
  `StableSort`, a generic stable insertion sort by a real-valued key. It stands for
  JavaScript's stable `Array.prototype.sort` with a comparator of the form
  `key(a) - key(b)`.
- `ClinicModels`: `VetClinic.find_nearest`. The haversine distance is an opaque
  function parameter.
- `Favorites`: the favourites reducer, as a class holding a `seq<int>` of clinic ids.
- `SearchState`: the `useSearchState` cell, as a class with four fields and setters.
- `PetCard`: `calculateAge` on (year, month, day) triples, and the gender label.
- `VaccinationHistory`: the upcoming-vaccination filter over millisecond timestamps,
  and the `split('T')[0]` trim of the edit form.
- `ClinicValidators`: `validate_phone`, `validate_working_hours` (a scanner for its
  regular expression, proved against a grammar), `validate_services` and
  `validate_postal_code`.
- `ImportService`: `required_fields`, `validate_row`, and the tally that
  `import_clinics` keeps. Both are imperative methods proved against specification
  functions.
- `CoreUtils`: `validate_phone_number` and the upload path helper of
  `backend/core/utils.py`.
- `ImageUtils`: the file size and type checks, the file path helper, and the
  thumbnail path of `backend/core/utils/image.py`.
- `Wrappers`, `Sequences`, `Strings`: `Option`/`Outcome`, subsequences, and Python's
  and JavaScript's `split`, `strip`, `isspace`, `isdigit` and `replace` on
  `seq<char>`.

A Django validator either returns or raises `ValidationError`. It is modelled as a
function returning `Outcome<string>`: `Pass`, or `Fail(message)` carrying the
message word for word.

Two design decisions:

- `isClinicOpen` on a malformed time. One might expect an error here. The code does
  not raise one: it computes `NaN`, every comparison is false, and the clinic reads
  as closed. The model does the same (`TimeUtils.ClosedWhenBoundIsNaN`).
- Overnight schedules (close earlier than open) are never open. This is what the
  code computes (`TimeUtils.OvernightNeverOpen`).

## Model

| member | source | states |
|---|---|---|
| TimeUtils.NumberOf | frontend/src/utils/timeUtils.ts:20-21 | `Number` of a time part: a digit string gives its non-negative value, the empty string 0, anything else `NaN` (`None`) |
| TimeUtils.MinutesOf | frontend/src/utils/timeUtils.ts:20-24 | a bound converts iff its first two ':'-pieces are digit strings (or empty); the minutes are then non-negative |
| TimeUtils.DayName | frontend/src/utils/timeUtils.ts:14-15 | the weekday's name from the `DayNames` list, which runs from sunday for 0 to saturday for 6 |
| TimeUtils.DayNamesDistinct | frontend/src/utils/timeUtils.ts:14-15 | different weekdays look up different keys |
| TimeUtils.NowMinutes | frontend/src/utils/timeUtils.ts:11 | the current time as hours*60+minutes lies in 0 .. 24*60-1 |
| TimeUtils.IsClinicOpen | frontend/src/utils/timeUtils.ts:8-27 | open only if today's entry exists and both bounds parse |
| TimeUtils.TwoDigitsValue | frontend/src/utils/timeUtils.ts:20-21 | an "HH" or "MM" part reads back as its number |
| TimeUtils.MinutesOfFormatted | frontend/src/utils/timeUtils.ts:20-24 | the "HH:MM" text of h and m reads back as h*60+m |
| TimeUtils.OnlyTodayMatters | frontend/src/utils/timeUtils.ts:14-17 | two schedules that agree on today's entry give the same answer |
| TimeUtils.ClosedWithoutEntry | frontend/src/utils/timeUtils.ts:17-18 | no entry for today means closed |
| TimeUtils.ClosedWhenBoundIsNaN | frontend/src/utils/timeUtils.ts:20-26 | a bound that does not parse means closed at every minute |
| TimeUtils.OpenIffWithinBounds | frontend/src/utils/timeUtils.ts:23-26 | open iff open-minutes <= now <= close-minutes; both ends included |
| TimeUtils.OvernightNeverOpen | frontend/src/utils/timeUtils.ts:26 | close before open means closed at every minute; nothing wraps past midnight |
| TimeUtils.MondayNineToSix | frontend/src/utils/timeUtils.ts:8-27 | with monday 09:00-18:00: open at 9:00 and 18:00, closed at 8:59, at 18:01 and on tuesday |
| StableSort.Insert | frontend/src/components/clinics/ClinicList.tsx:31 | inserting into a key-sorted sequence keeps it sorted and adds exactly the element |
| StableSort.InsertWithKey | frontend/src/components/clinics/ClinicList.tsx:31 | insertion keeps the relative order of elements with equal keys |
| StableSort.SortByKey | frontend/src/components/clinics/ClinicList.tsx:31 | the result is sorted by key, a permutation of the input, and keeps the input order among equal keys |
| StableSort.SortSorted | frontend/src/components/clinics/ClinicList.tsx:39-40 | an already sorted sequence is returned unchanged |
| StableSort.WithKeyAppend | frontend/src/components/clinics/ClinicList.tsx:31 | selecting the elements with one key distributes over concatenation |
| ClinicList.Compare | frontend/src/components/clinics/ClinicList.tsx:32-41 | negative, putting a first, iff a is nearer for 1, better rated for 2, more reviewed for 3; zero on ties and for any other criterion |
| ClinicList.CompareIsKeyDifference | frontend/src/components/clinics/ClinicList.tsx:32-41 | the comparator is distance a-b for 1, rating b-a for 2, reviews b-a for 3, 0 otherwise, i.e. a difference of sort keys |
| ClinicList.SortedClinics | frontend/src/components/clinics/ClinicList.tsx:31-42 | a permutation of the input; ascending distance for 1, descending rating for 2, descending review count for 3; any other value keeps the input order; ties keep the input order |
| ClinicList.NeutralKeepsOrder | frontend/src/components/clinics/ClinicList.tsx:39-40 | a comparator that always returns 0 leaves the order unchanged |
| ClinicList.InitialOrder | frontend/src/components/clinics/ClinicList.tsx:29 | the default criterion 1 sorts nearest first |
| ClinicList.NearerFirstExample | frontend/src/components/clinics/ClinicList.tsx:33-34 | the clinic 100 away comes before the one 500 away |
| ClinicList.TiesKeepOrderExample | frontend/src/components/clinics/ClinicList.tsx:37-38 | two clinics with equal review counts stay in input order |
| ClinicModels.Active | backend/clinics/models.py:82 | exactly the active clinics, in queryset order, each as many times as in the input |
| ClinicModels.Candidates | backend/clinics/models.py:83-84 | each active clinic paired with its own distance |
| ClinicModels.FindNearest | backend/clinics/models.py:77-85 | active clinics with their own distance, ascending; min(limit, active count) of them; none left out is nearer; ties keep queryset order |
| ClinicModels.CandidatesAreActive | backend/clinics/models.py:82-84 | every candidate pair is an active clinic of the input with its distance |
| ClinicModels.PrefixOfSorted | backend/clinics/models.py:85 | a prefix of the sorted candidates is ascending and drawn from the candidates |
| ClinicModels.PrefixIsNearest | backend/clinics/models.py:85 | every dropped candidate is at least as far as every kept one |
| ClinicModels.PrefixTies | backend/clinics/models.py:85 | equal-distance clinics in the prefix keep the queryset order, which is by name |
| ClinicModels.DefaultLimitAtMostTen | backend/clinics/models.py:78 | with the default limit at most 10 results |
| Favorites.Added | frontend/src/store/slices/favoritesSlice.ts:15-18 | the id is present afterwards, nothing else is added, the old list is a prefix, and a present id changes nothing |
| Favorites.Without | frontend/src/store/slices/favoritesSlice.ts:20-21 | every occurrence of the id is removed, the other ids stay, in order, as often as before |
| Favorites.AddIdempotent | frontend/src/store/slices/favoritesSlice.ts:16 | adding a present id changes nothing; adding twice equals adding once |
| Favorites.AddKeepsNoDuplicates | frontend/src/store/slices/favoritesSlice.ts:16-17 | adding keeps the list duplicate-free |
| Favorites.RemoveKeepsNoDuplicates | frontend/src/store/slices/favoritesSlice.ts:20-21 | removing keeps the list duplicate-free |
| Favorites.RemoveAbsent | frontend/src/store/slices/favoritesSlice.ts:21 | removing an absent id is a no-op |
| Favorites.RemoveAppend | frontend/src/store/slices/favoritesSlice.ts:21 | removal distributes over concatenation |
| Favorites.AddThenRemove | frontend/src/store/slices/favoritesSlice.ts:15-21 | adding an absent id and then removing it restores the list |
| Favorites.FavoritesState.constructor | frontend/src/store/slices/favoritesSlice.ts:7-9 | the initial list is empty |
| Favorites.FavoritesState.AddToFavorites | frontend/src/store/slices/favoritesSlice.ts:15-18 | appends the id at the end iff absent; keeps the list duplicate-free |
| Favorites.FavoritesState.RemoveFromFavorites | frontend/src/store/slices/favoritesSlice.ts:20-21 | the new list is the old one without the id; keeps it duplicate-free |
| Favorites.FavoritesState.ClearFavorites | frontend/src/store/slices/favoritesSlice.ts:23-24 | the list becomes empty |
| SearchState.InitialFilters | frontend/src/hooks/useSearchState.ts:11-17 | every number 0, every flag false |
| SearchState.SearchStateCell.constructor | frontend/src/hooks/useSearchState.ts:20-25 | location null, initial filters, not loading, no error |
| SearchState.SearchStateCell.SetLocation | frontend/src/hooks/useSearchState.ts:27-29 | replaces location only |
| SearchState.SearchStateCell.SetFilters | frontend/src/hooks/useSearchState.ts:31-33 | replaces filters only |
| SearchState.SearchStateCell.SetLoading | frontend/src/hooks/useSearchState.ts:35-37 | replaces isLoading only |
| SearchState.SearchStateCell.SetError | frontend/src/hooks/useSearchState.ts:39-41 | replaces error only; null clears it |
| SearchState.SearchStateCell.ResetState | frontend/src/hooks/useSearchState.ts:43-50 | the initial state, from any state |
| SearchState.LastLocationWins | frontend/src/hooks/useSearchState.ts:27-29 | on any cell, two location writes leave the state the second alone leaves, so a repeated write changes nothing |
| SearchState.SettersThenReset | frontend/src/hooks/useSearchState.ts:27-50 | on any cell, after a write to every field, a reset gives the initial state |
| PetCard.CalculateAge | frontend/src/components/pets/PetCard.tsx:33-44 | the age is the number n of whole years: birth + n years is not after today, birth + n+1 years is |
| PetCard.AgeIsUnique | frontend/src/components/pets/PetCard.tsx:33-44 | that characterisation fixes the age |
| PetCard.FullYearsOnBirthday | frontend/src/components/pets/PetCard.tsx:39-40 | on the birthday the full year difference is shown |
| PetCard.DayIgnoredAfterBirthMonth | frontend/src/components/pets/PetCard.tsx:36-39 | past the birth month the age is the year difference, whatever the day |
| PetCard.NegativeIffBornAfterToday | frontend/src/components/pets/PetCard.tsx:33-43 | no clamping: the age is negative iff the birth date is after today |
| PetCard.GenderLabel | frontend/src/components/pets/PetCard.tsx:79 | 'Мальчик' iff the gender is 'male', otherwise 'Девочка' |
| VaccinationHistory.UpcomingVaccinations | frontend/src/components/pets/VaccinationHistory.tsx:124-130 | a subsequence of the input holding exactly the vaccinations with now < next <= now + 30 days, each as many times as in the input |
| VaccinationHistory.DueSoon | frontend/src/components/pets/VaccinationHistory.tsx:127-128 | the filter's test: a valid next date strictly after now and at most 30 days ahead; no contract of its own, its bounds are stated by `WindowBounds` |
| VaccinationHistory.ShowsUpcomingAlert | frontend/src/components/pets/VaccinationHistory.tsx:145 | the alert shows iff some vaccination is due within the window |
| VaccinationHistory.WindowBounds | frontend/src/components/pets/VaccinationHistory.tsx:128 | a next date equal to now is excluded, one exactly 30 days ahead included, past ones and unparsable ones excluded |
| VaccinationHistory.DatePart | frontend/src/components/pets/VaccinationHistory.tsx:74-75 | the text before the first 'T'; a string without 'T' unchanged |
| VaccinationHistory.EditFormValues | frontend/src/components/pets/VaccinationHistory.tsx:72-78 | both dates trimmed, the other fields copied |
| VaccinationHistory.DatePartOfDateTime | frontend/src/components/pets/VaccinationHistory.tsx:74-75 | a date followed by 'T' and a time trims to the date |
| VaccinationHistory.DatePartExample | frontend/src/components/pets/VaccinationHistory.tsx:74 | "2024-03-01T10:00:00Z" trims to "2024-03-01" |
| ClinicValidators.ValidatePhone | backend/clinics/validators.py:5-10 | passes iff 10 to 15 characters remain once every non-digit is deleted; fails with the phone message |
| ClinicValidators.PhoneDigits | backend/clinics/validators.py:8 | only digits, no longer than the value; with the two lemmas below it is exactly the value's digits in order |
| ClinicValidators.PhoneDigitsKeepOrder | backend/clinics/validators.py:8 | the digits left are a subsequence of the value |
| ClinicValidators.PhoneDigitsKeepEveryDigit | backend/clinics/validators.py:8 | every digit is kept as many times as it occurs |
| ClinicValidators.PhoneDigitsAppend | backend/clinics/validators.py:8 | deleting non-digits distributes over concatenation |
| ClinicValidators.DigitsOnlyPhone | backend/clinics/validators.py:9-10 | a value of digits alone passes iff it has 10 to 15 of them |
| ClinicValidators.NonDigitsIgnored | backend/clinics/validators.py:8-10 | inserting non-digits anywhere does not change the verdict |
| ClinicValidators.FormattedPhonePasses | backend/clinics/validators.py:8-10 | '+7 (999) 123-45-67' passes |
| ClinicValidators.ScanGroup | backend/clinics/validators.py:14 | what it reads is a well-formed group and is exactly the text it consumed |
| ClinicValidators.ScanMoreSound | backend/clinics/validators.py:14 | what it reads is a list of well-formed ', GROUP' repetitions spelling the whole input |
| ClinicValidators.ScanList | backend/clinics/validators.py:14-15 | what it reads is a well-formed group list whose text is the input |
| ClinicValidators.MatchesHoursPattern | backend/clinics/validators.py:14-15 | `re.match` with the pattern: the scanner reads the whole value, or the whole value but one final newline; no contract of its own, its meaning is stated by `AcceptedHoursAreWellFormed` and `WellFormedHoursAccepted` |
| ClinicValidators.ValidateWorkingHours | backend/clinics/validators.py:12-16 | fails only with the working-hours message |
| ClinicValidators.ScanGroupText | backend/clinics/validators.py:14 | every well-formed group is read back exactly when no digit follows it |
| ClinicValidators.ScanMoreText | backend/clinics/validators.py:14 | every well-formed repetition list is read back exactly |
| ClinicValidators.ScanListText | backend/clinics/validators.py:14 | every well-formed group list is read back exactly |
| ClinicValidators.AcceptedHoursAreWellFormed | backend/clinics/validators.py:14-16 | an accepted value is the text of groups LL-LL, one whitespace, 1-2 digits, '-', 1-2 digits, joined by ',' and one whitespace, perhaps with one final newline |
| ClinicValidators.WellFormedHoursAccepted | backend/clinics/validators.py:14-16 | each such text, with or without one final newline, is accepted |
| ClinicValidators.HoursNotRangeChecked | backend/clinics/validators.py:14-16 | 'Mo-Fr 99-0' is accepted |
| ClinicValidators.TwoGroupsAccepted | backend/clinics/validators.py:14-16 | 'Mo-Fr 9-18, Sa-Su 10-14' is accepted |
| ClinicValidators.SingleDayRejected | backend/clinics/validators.py:14-16 | 'Sa 10-14', the message's own example, is rejected |
| ClinicValidators.SingleDayAfterRangeRejected | backend/clinics/validators.py:14-16 | 'Mo-Fr 9-18, Sa 10-14', the whole example, is rejected |
| ClinicValidators.ServiceNames | backend/clinics/validators.py:22 | one stripped name per comma-separated item, empty iff the item is all whitespace |
| ClinicValidators.ValidateServices | backend/clinics/validators.py:18-24 | passes iff the value is non-empty and no item is blank after strip; the empty value fails with its own message |
| ClinicValidators.TrailingCommaRejected | backend/clinics/validators.py:22-24 | a trailing comma is rejected |
| ClinicValidators.LeadingCommaRejected | backend/clinics/validators.py:22-24 | a leading comma is rejected |
| ClinicValidators.EmptyMiddleItemRejected | backend/clinics/validators.py:22-24 | 'a,,b' is rejected |
| ClinicValidators.SpacedItemsAccepted | backend/clinics/validators.py:22-24 | 'a, b' is accepted |
| ClinicValidators.ValidatePostalCode | backend/clinics/validators.py:26-29 | fails only with the postal-code message |
| ClinicValidators.PostalCodeShape | backend/clinics/validators.py:28-29 | a value passes iff it is 5 to 10 digits, alone or followed by one newline; a digit string passes iff it has 5 to 10 digits |
| ClinicValidators.PostalCodeFinalNewline | backend/clinics/validators.py:28-29 | '12345' followed by a newline passes, as `$` matches before a final newline; '1234' followed by a newline fails |
| ImportService.Validate | backend/clinics/services/import_service.py:33-51 | the validator applied to each checked column; no contract of its own |
| ImportService.RowErrors | backend/clinics/services/import_service.py:22-53 | the list `validate_row` returns; no contract of its own, stated by `MissingFieldsStopValidation`, `CompleteRowErrors` and `CleanRowIffValid` |
| ImportService.Missing | backend/clinics/services/import_service.py:17-27 | exactly the required columns the row lacks |
| ImportService.ValidateRow | backend/clinics/services/import_service.py:22-53 | the appended errors are those of the specification function `RowErrors` |
| ImportService.MissingFieldsStopValidation | backend/clinics/services/import_service.py:27-30 | a row lacking a required column gets exactly one error naming every missing column |
| ImportService.CompleteRowErrors | backend/clinics/services/import_service.py:33-53 | a complete row gets at most four errors; each names a validated column whose validator failed, with its message; each failing validator has its error; they come in the order phone, working_hours, services, postal_code |
| ImportService.CleanRowIffValid | backend/clinics/services/import_service.py:22-53 | no errors iff every required column is present and the four validators pass; email and website are only checked for presence |
| ImportService.ErrorsAreFailures | backend/clinics/services/import_service.py:33-51 | for any checked fields and their outcomes, each error names a field whose check failed, with that failure's message |
| ImportService.FailuresReported | backend/clinics/services/import_service.py:33-51 | for any checked fields and their outcomes, each failed check has its error |
| ImportService.ErrorsInOrder | backend/clinics/services/import_service.py:33-51 | the fields the errors name are a subsequence of the checked fields, in checking order |
| ImportService.ErrorSubjects | backend/clinics/services/import_service.py:33-51 | the fields the errors name are exactly the fields whose check failed, in checking order |
| ImportService.ImportRow | backend/clinics/services/import_service.py:82-119 | one row's step: success grows by one iff the row is saved, errors by one otherwise, skipped stays, and the row's detail entry, if any, is appended |
| ImportService.RowDetail | backend/clinics/services/import_service.py:83-119 | a row adds one details entry, carrying its number and clinic name, iff it is not saved |
| ImportService.ClinicLabel | backend/clinics/services/import_service.py:87 | `row.get('name', 'Unknown')`; no contract of its own |
| ImportService.Saved | backend/clinics/services/import_service.py:82-119 | a row counts as a success iff it has no validation errors and its create-or-update step does not raise; no contract of its own |
| ImportService.Details | backend/clinics/services/import_service.py:78-119 | the details entries of the rows in order; no contract of its own, stated by `DetailsCount`, `DetailsNumbered` and `UnsavedRowsReported` |
| ImportService.SuccessCount | backend/clinics/services/import_service.py:110 | at most the number of rows |
| ImportService.ReadDetail | backend/clinics/services/import_service.py:122-129 | a failed read adds one entry with row 0 and clinic 'File' |
| ImportService.ImportClinics | backend/clinics/services/import_service.py:65-131 | success counts the saved rows; success + errors is the number of rows, plus one if the read failed; skipped stays 0; details are the rows' entries then the read entry |
| ImportService.DetailsCount | backend/clinics/services/import_service.py:82-120 | one details entry per unsaved row |
| ImportService.DetailsNumbered | backend/clinics/services/import_service.py:78-119 | entries name unsaved rows by their number from 1, in increasing order, with the row's clinic name |
| ImportService.UnsavedRowsReported | backend/clinics/services/import_service.py:83-119 | every unsaved row has an entry |
| ImportService.InvalidRowNeverSaved | backend/clinics/services/import_service.py:83-90 | a row failing validation is never saved, and its entry does not depend on the save step |
| ImportService.UnreadableFile | backend/clinics/services/import_service.py:122-129 | an unreadable file gives exactly the entry numbered 0 |
| CoreUtils.PhoneNumberMessage | backend/core/utils.py:9-17 | the messages with the value filled in |
| CoreUtils.ValidatePhoneNumber | backend/core/utils.py:4-17 | passes iff the value is a non-empty digit string of length 10 to 15; the digit error covers the empty string and comes before the length error |
| CoreUtils.EmptyPhoneNumberNotDigits | backend/core/utils.py:8-12 | the empty string fails the digit check |
| CoreUtils.DigitErrorFirst | backend/core/utils.py:8-17 | '12ab' fails with the digit error |
| CoreUtils.AgreesWithClinicValidatorOnDigits | backend/core/utils.py:8-17 | on digit strings this validator and the clinic phone validator agree |
| CoreUtils.FormattedNumberRejected | backend/core/utils.py:8-12 | '+7 (999) 123-45-67' is rejected here though the clinic validator accepts it |
| CoreUtils.Extension | backend/core/utils.py:23 | the text after the last '.', which holds no '.'; the whole name when it has none |
| CoreUtils.ExtensionAfterLastDot | backend/core/utils.py:23 | the piece after the final dot is the extension |
| CoreUtils.UploadPath | backend/core/utils.py:19-25 | the path keeps the file's extension |
| CoreUtils.UploadPathDropsBaseName | backend/core/utils.py:24-25 | the path is 'uploads/<app>/<model>_<id>.<ext>'; the base name is dropped |
| CoreUtils.UploadPathWithoutDot | backend/core/utils.py:23-25 | a name without a dot becomes the extension |
| ImageUtils.ValidateImageSize | backend/core/utils/image.py:6-9 | fails iff size > limit, with the 5MB message |
| ImageUtils.ValidateDocumentSize | backend/core/utils/image.py:11-14 | fails iff size > limit, with the 10MB message |
| ImageUtils.SizeLimitInclusive | backend/core/utils/image.py:8-14 | a file exactly at the limit passes; one byte more fails |
| ImageUtils.SmallerFilesPass | backend/core/utils/image.py:8-14 | a smaller file passes wherever a larger one does |
| ImageUtils.ValidateFileType | backend/core/utils/image.py:16-19 | passes iff the content type is one of the allowed ones |
| ImageUtils.MoreTypesAllowMore | backend/core/utils/image.py:18 | allowing more types never rejects a type that passed |
| ImageUtils.FilePath | backend/core/utils/image.py:33-37 | the path keeps the file's extension |
| ImageUtils.FilePathDropsBaseName | backend/core/utils/image.py:35-37 | the path is '<folder>/<id>.<ext>' |
| ImageUtils.ThumbnailPath | backend/core/utils/image.py:27 | `replace('.', '_thumb.')`; no contract of its own, stated by the lemmas below |
| ImageUtils.ThumbnailKeepsExtension | backend/core/utils/image.py:27 | the thumbnail path has the image path's extension |
| ImageUtils.ThumbnailRewritesEveryDot | backend/core/utils/image.py:27 | the thumbnail path is the path cut at every '.' and joined with '_thumb.' |
| ImageUtils.ThumbnailAtFirstDot | backend/core/utils/image.py:27 | the first dot becomes '_thumb.' and the text before it stays |
| ImageUtils.DotInDirectoryRewritten | backend/core/utils/image.py:27 | a dot in a directory name is rewritten too |
| ImageUtils.ThumbnailWithoutDot | backend/core/utils/image.py:27 | a path with no dot is unchanged, so the thumbnail would overwrite the image |
| Strings.Split | frontend/src/utils/timeUtils.ts:20-21 | `split` gives at least one piece, no piece holds the separator, and joining the pieces gives the string back |
| Strings.SplitJoin | frontend/src/utils/timeUtils.ts:20-21 | splitting undoes joining |
| Strings.Strip | backend/clinics/validators.py:22 | `strip` is a slice of the string with only whitespace cut off before and after it; it is empty iff the string is all whitespace, and otherwise neither starts nor ends with whitespace |
| Strings.ReplaceIsSplitJoin | backend/core/utils/image.py:27 | replacing a character is splitting at it and joining with the replacement |
| Sequences.PyPrefix | backend/clinics/models.py:85 | Python's `s[:n]` is a prefix of length min(n, len) for n >= 0, counted from the end for n < 0 |

## Left out

- Wall-clock reads (`new Date()`, `getDay`, `getHours`): the weekday, hour, minute and the current timestamp are parameters.
- TimeUtils.NumberOf: JavaScript `Number` is modelled for digit strings and the empty string only. Signs, fractions, exponents, hexadecimal and surrounding whitespace, which `Number` also accepts, are read as `NaN`.
- String-to-date parsing (`new Date(birthDate)`, `new Date(vaccination.next_date)`) and time zones: `PetCard` takes calendar triples; `VaccinationHistory` takes the parsing as a function parameter returning an `Option` timestamp.
- Floating point: distances and ratings are exact `real`s; comparator results are exact differences, so `NaN` distances and rounding are not modelled.
- The haversine `calculate_distance`: an opaque function parameter of `find_nearest`. It reads `self.latitude` and `self.longitude`, which the `VetClinic` model in backend/clinics/models.py does not declare, so as written it would raise `AttributeError`; the model's `VetClinic` keeps only the name and the active flag.
- The database queryset: `find_nearest` takes the clinics already ordered by name, as the model's `Meta.ordering` promises.
- Regular-expression digits and `str.isdigit` are ASCII digits; Unicode digits from other scripts are not modelled. Whitespace is Python's `str.isspace` set.
- ImportService.RowErrors: errors are structured values rather than the source's formatted sentences. The missing-columns sentence depends on Python's set iteration order, so it is kept as a set. The text of `str(ValidationError)` is not modelled.
- Saved: `update_or_create` and `process_services` are one step whose failure is the row's `saveError`. When `update_or_create` has already written the clinic and `process_services` then raises, the source counts the row as an error although the clinic stays in the database; the model has no database, so it does not capture that partial write.
- CSV reading, `update_or_create`, `process_services` and logging in `import_clinics`. A file is the rows read plus the read error, if any, that stopped the reading. Each row carries the exception, if any, of its create-or-update step.
- DictReader rows with missing cells: `DictReader` gives `None` for them, and a validator would then raise outside the per-row `try`. Cells are always strings here.
- `create_thumbnail`'s image opening, resizing and saving: only the thumbnail path computation is modelled.
- The settings `MAX_IMAGE_SIZE` and `MAX_DOCUMENT_SIZE` are not defined in the modelled files: they are parameters of the size checks.
- The model instance of the path helpers is reduced to its id, model name and app label, all as text.
- React rendering of the components, the Redux action plumbing and the `useCallback`/`setState` scheduling: the slice and the hook are modelled as objects whose methods update their fields directly.
- ClinicList: the sort works on the copy `[...clinics]`; the model's sequences are values, so the caller's array is never touched and there is no aliasing to model.
