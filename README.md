# HH vacancy store and ranking utilities, modelled in Dafny

This project models the logic at the core of a small job-vacancy tool. The tool
fetches vacancies from the hh.ru search API, keeps them in a JSON file, and then
ranks, filters and formats them for the console. Three pieces are modelled:

- **The vacancy store** (`JSONVacancyStorage`, `src/Filtered_vacancy.py`), module
  `Storage` in `storage.dfy`. The JSON file is the class field
  `file: Option<seq<Record>>`. `None` stands for a file that is missing or not
  valid JSON; `Some(s)` stands for a file holding the array `s`. The operations
  are:
  - the constructor, which heals a missing or corrupt file to `[]`;
  - `AddVacancy`, which appends a record;
  - `GetVacancies`, a loop that keeps the records passing every supplied
    criterion;
  - `DeleteVacancyByTitle`, which drops every record with the given title.

  `GetVacancies` is proved against the specification function `Query`, and the
  lemmas state what `Query` and `RemoveTitle` (the comprehension inside
  `delete_vacancy_by_title`) return. Both count copies, because the file
  routinely holds the same vacancy more than once. `ToRecord` is
  `vacancy.__dict__`. A record's `salary` can
  be absent, `null`, a string or an object. Inside an object, `from` and `to`
  can each be absent, `null` or an integer. The model keeps all these cases
  apart because the filter treats them differently. With a salary bound
  supplied, a `null` or string salary makes `.get` raise `AttributeError`; the
  model returns this as `Failure(SalaryNotAnObject)`.
- **The salary comparison of `Vacancy`** (`src/Vacancy.py`), module
  `Vacancies` in `vacancies.dfy`:
  - `extract_salary_amount` is `ExtractSalaryAmount`, over a model of
    `split(" ")` and `int()`;
  - the three comparison operators `__lt__`, `__gt__` and `__eq__` are `Less`,
    `Greater` and `Equal`, with the special string "Зарплата не указана"
    (`UnspecifiedSalaryText`).

  Where Python would raise (`IndexError`, `ValueError`, `TypeError`), the
  result is `None`.
- **The helpers of `UserInteraction`** (`src/user_interaction.py`), module
  `Interaction` in `interaction.dfy`:
  - `format_salary` is `FormatSalary`;
  - `remove_highlight_tags` is `RemoveHighlightTags`, with the `re.sub` pass
    as `StripTags`;
  - the sort-and-slice of `display_top_vacancies` is `TopVacancies`, built from
    the sort key `get_salary_from` (`SalaryFromKey`) and the stable sort
    `SortBySalaryDesc`;
  - the list comprehension of `search_vacancies_by_description` is
    `SearchByDescription`.

  All four are pure functions. The sort is specified as a permutation that is
  non-increasing in the key and stable.

Three helper modules support these. `Wrappers` holds `Option` and `Result`.
`Seqs` holds the order-preserving filter `Keep`, `IsSubsequence` and Python's
`s[:n]`. `Strings` models the string operations used here: `in`, `split(" ")`,
`lower()`, `str(int)` and `int(str)`.

Two behaviours of the code are worth stating plainly:
- A vacancy whose salary is "Зарплата не указана" compares greater than every vacancy,
  and two such vacancies are each greater than the other (`Vacancies.GreaterNotAsymmetric`).
- A missing `from` is read as 0, so such a record passes `min_salary=m` exactly when
  `0 >= m` (`Storage.QueryByMinSalary`).

## Model

| member | source | states |
|---|---|---|
| `Storage.JsonVacancyStorage.constructor` | src/Filtered_vacancy.py:32-47 | a missing or unparsable file becomes `[]`; a readable file is kept as it is |
| `Storage.JsonVacancyStorage.AddVacancy` | src/Filtered_vacancy.py:49-57 | the file becomes the old readable records (or `[]` if unreadable) followed by the vacancy's record; earlier records are unchanged |
| `Storage.JsonVacancyStorage.GetVacancies` | src/Filtered_vacancy.py:65-91 | an unreadable file gives `[]`; otherwise the loop with its `match` flag returns exactly `Query(records, criteria)`, including the raising case |
| `Storage.JsonVacancyStorage.DeleteVacancyByTitle` | src/Filtered_vacancy.py:93-106 | an unreadable file is left alone; otherwise the file keeps exactly the records whose title differs, in order |
| `Storage.ToRecordRoundTrip` | src/Filtered_vacancy.py:57 | the record written for a vacancy loses nothing: reading its five fields back gives the same vacancy, so two different vacancies never store the same record |
| `Storage.QueryNoCriteria` | src/Filtered_vacancy.py:73-91 | with no criteria every stored record is returned, in storage order |
| `Storage.QueryFailure` | src/Filtered_vacancy.py:78-87 | a query raises exactly when a salary bound is supplied and some stored salary is `null` or a string; a title-only query never raises |
| `Storage.QueryResult` | src/Filtered_vacancy.py:73-89 | a successful query is an order-preserving subsequence of the store and holds a record iff it is stored and passes every supplied criterion (AND); each passing record keeps all its stored copies and a failing one keeps none |
| `Storage.QueryByTitle` | src/Filtered_vacancy.py:76-77 | `title=t` succeeds and returns exactly the stored records titled `t`, with as many copies of each as are stored |
| `Storage.QueryByMinSalary` | src/Filtered_vacancy.py:78-82 | `min_salary=m` keeps a record iff its `from` is an integer `>= m`, or `from` (or the whole salary) is missing and `0 >= m`; a `null` `from` is dropped; every kept record keeps all its stored copies |
| `Storage.QueryByMaxSalary` | src/Filtered_vacancy.py:83-87 | `max_salary=m` keeps a record iff its `to` is present, non-null and `<= m`; a missing `to` (read as infinity) is dropped; every kept record keeps all its stored copies |
| `Storage.RemoveTitleResult` | src/Filtered_vacancy.py:102 | after deleting `t` no record titled `t` remains, every other record survives in order with all its copies, and a title query for `t` returns `[]` |
| `Storage.RemoveAbsentTitle` | src/Filtered_vacancy.py:102 | deleting a title no record carries leaves the records unchanged |
| `Storage.AddToMissingFile` | tests/test_Filtered_vacancy.py:16-29 | a store opened on a missing file, after one add, lists exactly that vacancy's record |
| `Storage.QuerySecondTitle` | tests/test_Filtered_vacancy.py:32-52 | after adding two vacancies with different titles, a query by the second title returns exactly the second record |
| `Storage.AddThenDelete` | tests/test_Filtered_vacancy.py:55-66 | adding a vacancy to a new store and deleting its title leaves the store empty |
| `Vacancies.ExtractLowerBound` | src/Vacancy.py:4-7 | "от X" yields X (the second space-separated piece, parsed) |
| `Vacancies.ExtractUpperBound` | src/Vacancy.py:8-9 | "до Y", which holds no "от", yields Y |
| `Vacancies.ExtractWithoutBound` | src/Vacancy.py:6-10 | a string holding neither the substring "от" nor "до" yields 0 (e.g. "около 5") |
| `Vacancies.ExtractExamples` | tests/test_Vacancy.py:6-7 | "от 1000" gives 1000 and "до 2000" gives 2000 |
| `Vacancies.ExtractNoBoundExamples` | tests/test_Vacancy.py:8-9 | "1000" and "Зарплата не указана", which name no bound, give 0 |
| `Vacancies.UnspecifiedOnLeft` | src/Vacancy.py:23-46 | when `a` has the "not specified" salary: `a < b` is False, `a > b` is True, `a == b` is False, for every `b` |
| `Vacancies.UnspecifiedOnRight` | src/Vacancy.py:23-46 | when only `b` has it: `a < b` is True, `a > b` is False, `a == b` is False |
| `Vacancies.EqualNotReflexive` | src/Vacancy.py:41-46 | a "not specified" vacancy is not equal to itself; any other vacancy whose amount can be extracted is |
| `Vacancies.GreaterNotAsymmetric` | src/Vacancy.py:23-37 | two "not specified" vacancies are each greater than, and neither less than, the other |
| `Vacancies.Trichotomy` | src/Vacancy.py:23-46 | without the special string, `<`, `==` and `>` follow the extracted amounts and exactly one holds |
| `Vacancies.CompareBounds` | tests/test_Vacancy.py:12-49 | vacancies with salaries "от X" and "до Y" compare in both directions as X and Y do |
| `Interaction.FormatSalaryMentions` | src/user_interaction.py:11-25 | the text mentions "от" iff `from` is truthy and "до" iff `to` is truthy; otherwise it is "Не указана" (also for `None` and `{}`) |
| `Interaction.ExtractFormattedSalary` | src/user_interaction.py:11-25 | `extract_salary_amount(format_salary(s))` gives back `from` if truthy, else `to` if truthy, else 0 |
| `Vacancies.ExtractBothBounds` | src/Vacancy.py:4-7 | "от X до Y" yields X |
| `Interaction.FormatSalaryZeroIsAbsent` | src/user_interaction.py:18-23 | a zero `from` or `to` is treated as absent: `{from: 0, to: Y}` gives "до Y" |
| `Interaction.FormatSalaryExamples` | tests/test_user_interaction.py:32-34 | `{from: 100000, to: 150000}`, `{from: 100000}` and `{to: 150000}` format as "от 100000 до 150000", "от 100000" and "до 150000"; the `{}` and `None` cases of lines 35-36 are the last clause of `FormatSalaryMentions` |
| `Interaction.StripTags` | src/user_interaction.py:31 | the single-pass tag removal never lengthens the text |
| `Interaction.RemoveHighlightTags` | src/user_interaction.py:28-32 | an absent or empty text is returned unchanged; otherwise the result is no longer than the input |
| `Interaction.StripTagsWithoutTags` | src/user_interaction.py:31 | text containing neither tag is returned unchanged |
| `Interaction.StripTagsPlainPrefix` | src/user_interaction.py:31 | text without '<' is copied through before the rest is scanned |
| `Interaction.StripTaggedWord` | src/user_interaction.py:31 | a tagged word inside plain text loses exactly its two tags |
| `Interaction.StripTagsSinglePass` | src/user_interaction.py:31 | a tag split in two by another tag is rejoined by the removal and then kept: one pass only |
| `Interaction.RemoveHighlightTagsExamples` | tests/test_user_interaction.py:39-42 | the three tag-removal cases of the tests |
| `Interaction.Insert` | src/user_interaction.py:43 | inserting into a descending sequence keeps it descending and adds exactly the one element (multiset) |
| `Interaction.InsertStable` | src/user_interaction.py:43 | the inserted item goes in front of the items sharing its key; the items of every other key keep their order |
| `Interaction.SortBySalaryDesc` | src/user_interaction.py:38-43 | the result is a permutation of the input, non-increasing in the `from` key (missing, `null` or 0 count as 0) |
| `Interaction.SortStable` | src/user_interaction.py:43 | `sorted` is stable: for every key, the items with that key appear in their input order |
| `Interaction.TopVacanciesResult` | src/user_interaction.py:43-44 | for `top_n >= 0`: length `min(top_n, len)`, a prefix of the stable sort, sorted, a sub-multiset of the input; every item left out has a key no larger than any item taken |
| `Interaction.TopVacanciesStable` | src/user_interaction.py:43-44 | for every key, the items taken with that key are the earliest input items with that key, in input order |
| `Interaction.SearchResult` | src/user_interaction.py:61-65 | the search keeps, in order, exactly the items whose requirement is non-empty and contains the keyword, ignoring case, each with all its copies |
| `Interaction.SearchIgnoresKeywordCase` | src/user_interaction.py:64 | searching with the lower-cased keyword gives the same result |
| `Interaction.SearchEmptyKeyword` | src/user_interaction.py:64 | the empty keyword keeps exactly the items with a non-empty requirement, each with all its copies |
| `Strings.ParseIntToString` | src/Vacancy.py:7 | `int(str(n)) == n` for every integer |
| `Strings.SplitFirst` | src/Vacancy.py:7 | `split(" ")` ends the first piece at the first space |

## Left out

- File and directory I/O: the `"../data"` path, `os.makedirs`, `open`, and JSON encoding. The file is the field `file`, and JSON serialization is assumed to give back what was written.
- Write failures: they are only printed (src/Filtered_vacancy.py:62-63, 107-108), so every write is modelled as succeeding.
- The read-modify-write race between concurrent processes: the model is single-threaded.
- `save_to_json_file` and `save_to_json_result`: they only write files.
- The console flow `user_interaction` and the print loops of `display_top_vacancies` and `search_vacancies_by_description`: they are console I/O.
- The module-level script code in src/Filtered_vacancy.py and src/Vacancy.py: it calls the network on import.
- `src/API_HH.py` (the paging HTTP client): it is network plumbing. It is not part of this model.
- The abstract base classes `VacancyStorage` and `VacancyAPI`: they carry no behaviour.
- JSON values of other types than the ones the program puts there:
  - a valid JSON file that is not an array;
  - salary bounds that are floats or strings (Python would compare them or raise `TypeError`);
  - non-string title criteria;
  - API items without a `salary` or `snippet` key (`KeyError`).
- `Strings.Lower`: it lower-cases only ASCII and the basic Cyrillic alphabet (including Ё), not all of Unicode.
- `Strings.ParseInt`: it accepts an optional sign followed by ASCII digits. Python's `int()` also accepts surrounding whitespace other than the space, `_` between digits, and non-ASCII digits.
- The `Vacancy` constructor is the datatype constructor `Vacancies.Vacancy`. It stores its five arguments verbatim, which the datatype itself guarantees.
