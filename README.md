# Batch-script utilities of the NCANDA data-integration reporting scripts

The reporting batch scripts work through open GitHub issues and re-run the
data-integration command for each one. `scripts/reporting/batch_script_utils.py`
holds the logic they share, and this project models that logic in Dafny:

- **Study-ID extraction** (`extract_unique_study_ids`). The function finds every
  match of the 11-character study-ID pattern `[A-EX]-\d{5}-[FMTX]-\d`, scanning
  left to right without overlap as `re.findall` does. It then drops duplicates
  and sorts the rest by code point. Module `StudyIds`.
  - The scan is generic over the window predicate and width (`MatchStarts`).
  - It is characterised by three properties: every report is a match, reports
    do not overlap, and every match is covered by a report. These three
    determine the scan (`MatchStartsUnique`).
  - `sorted(set(...))` is modelled as the strictly increasing list of the
    distinct elements. `StrictlyIncreasingUnique` proves that this list is
    unique.
- **Label dispatch tables** (`get_base_command`, `get_id_type`,
  `get_class_for_label`) and **ID lookup** (`get_id`), in module `Labels`.
  - A Python `assert` in the source becomes a `requires`.
  - A fall-through that returns `None` becomes an `Option`.
- **Issue selection and summary** (`scrape_matching_issues`, `update_issues`),
  in module `Issues`. Both are loop-based methods, each proved equal to a
  recursive specification function. The lemmas about the results are stated
  on those specification functions.
  - An issue object is built by a `construct` parameter that returns
    `Option<T>`. `None` stands for the `ValueError` the issue class may raise.
  - The "Closed" and "Commented" summaries of `update_issues` are returned as
    two lists of `#<number>` strings.
- Module `Text` holds the Python string semantics used by the modules above:
  - substring tests;
  - the code-point order behind `sorted`, proved irreflexive, transitive and
    total;
  - `str` on integers, with its round trip back to an integer.

## Model

| member | source | states |
|---|---|---|
| StudyIds.MatchStarts | scripts/reporting/batch_script_utils.py:12 | the `re.findall` scan: every start the `findall` scan reports begins an accepted window inside the text, and consecutive reports do not overlap (each starts at least a window width after the previous one) |
| StudyIds.MatchStartsCover | scripts/reporting/batch_script_utils.py:12 | completeness of the scan: every matching window is reported or overlaps a reported one |
| StudyIds.MatchStartsUnique | scripts/reporting/batch_script_utils.py:12 | any list of starts that is sound, non-overlapping and covering is exactly what the left-to-right scan reports |
| StudyIds.FindAll | scripts/reporting/batch_script_utils.py:5-12 | every string `re.findall(STUDY_ID_REGEX, text)` returns matches the study-ID pattern and occurs in the text |
| StudyIds.SortedUnique | scripts/reporting/batch_script_utils.py:12 | `sorted(set(xs))` is strictly increasing in code-point order and has exactly the elements of `xs` |
| StudyIds.StrictlyIncreasingUnique | scripts/reporting/batch_script_utils.py:12 | two strictly increasing lists with the same elements are equal, so the sorted, de-duplicated result is determined |
| StudyIds.ExtractUniqueStudyIds | scripts/reporting/batch_script_utils.py:11-13 | the result is strictly increasing (sorted, no duplicates), each entry is a study ID occurring in the text, and its elements are exactly those `findall` reports |
| StudyIds.NoMatchIffEmpty | scripts/reporting/batch_script_utils.py:11-13 | the result is empty if and only if no window of the text matches the pattern |
| StudyIds.LeftmostMatchReported | scripts/reporting/batch_script_utils.py:11-13 | the leftmost study ID in the text is always in the result |
| StudyIds.OverlappingMatchDropped | scripts/reporting/batch_script_utils.py:12 | in `A-12345-X-12345-F-1` both index 0 and index 8 start a study ID, but only the first is extracted, because the second overlaps it |
| Text.LessIrreflexive | scripts/reporting/batch_script_utils.py:12 | the code-point order `sorted` uses never puts a string before itself |
| Text.LessTransitive | scripts/reporting/batch_script_utils.py:12 | the code-point order is transitive |
| Text.LessTotal | scripts/reporting/batch_script_utils.py:12 | any two different strings are ordered one way or the other, so `sorted` has one answer |
| Text.IntToDecimal | scripts/reporting/batch_script_utils.py:136-138 | `str(n)` is non-empty, starts with `-` exactly for negative numbers, is otherwise all decimal digits, and has no leading zero: its first digit is `0` only for `"0"` itself |
| Text.IntDecimalRoundTrip | scripts/reporting/batch_script_utils.py:136-138 | reading back the decimal rendering of an issue number gives the number again |
| Labels.BaseCommand | scripts/reporting/batch_script_utils.py:63-91 | a command exists exactly for the four command labels, and `None` is returned otherwise; the command has at least two parts, its script path ends in `/<label>`, and it ends with `--study-id` for `import_mr_sessions` and `update_visit_data` and with `-e` for the other two |
| Labels.IdType | scripts/reporting/batch_script_utils.py:94-103 | defined on the four command labels (the assertion becomes a precondition); the result is one of `subject_id`, `eid` and `experiment_id`; it is `subject_id` exactly for `import_mr_sessions` and `update_visit_data`, `eid` exactly for `check_new_sessions`, and `experiment_id` exactly for `check_phantom_scans` |
| Labels.CommandFlagMatchesIdType | scripts/reporting/batch_script_utils.py:63-103 | a label's command ends with `--study-id` exactly when its ID type is `subject_id` |
| Labels.GetId | scripts/reporting/batch_script_utils.py:106-117 | an ID is returned exactly when the ID type is known and its field is present; `eid` and `experiment_id` are returned unchanged; the subject ID is the prefix of `experiment_site_id` of length min(11, its length) |
| Labels.IdTypeKnownToGetId | scripts/reporting/batch_script_utils.py:94-117 | every ID type that `get_id_type` yields is one `get_id` knows, so the lookup fails only when the field is missing |
| Labels.SubjectIdIsStudyId | scripts/reporting/batch_script_utils.py:106-110 | a site ID that begins with a study ID yields that study ID as subject ID, and extraction from it gives back exactly that ID |
| Labels.ClassForLabel | scripts/reporting/batch_script_utils.py:145-157 | defined on the four class labels (the assertion becomes a precondition); the chosen class is the one whose label is the given label (`redcap_update_summary_scores` gives `RedcapUpdateSummaryScoresIssue`, and so on) |
| Labels.ClassForLabelRoundTrip | scripts/reporting/batch_script_utils.py:145-157 | each of the four class labels selects its own issue class, and each class is selected by one label |
| Issues.ScrapeMatchingIssues | scripts/reporting/batch_script_utils.py:40-60 | the nested loops with `break` build exactly the specification list `Scraped`: in order, the objects built for the open issues that pass the number, title and label filters, skipping those whose construction fails |
| Issues.ScrapedMember | scripts/reporting/batch_script_utils.py:47-58 | an object is scraped if and only if it is built without error from an open issue that passes all three filters |
| Issues.ScrapedAppend | scripts/reporting/batch_script_utils.py:47-58 | scraping a concatenation scrapes each part in turn, so input order is kept |
| Issues.ScrapedLengthBound | scripts/reporting/batch_script_utils.py:47-59 | the scrape never has more objects than there are open issues |
| Issues.ScrapedPerIssue | scripts/reporting/batch_script_utils.py:47-59 | each open issue contributes its own part of the scrape, in place: at most one object however often it carries the label (the `break`), and exactly one when it passes the number, title and label filters of `Selected` and is built without error |
| Issues.Tag | scripts/reporting/batch_script_utils.py:136-138 | the summary entry `f"#{number}"` starts with `#` followed by at least one character |
| Issues.TagReadBack | scripts/reporting/batch_script_utils.py:136-138 | the issue number can be read back from the entry after the `#` |
| Issues.TagInjective | scripts/reporting/batch_script_utils.py:136-138 | different issue numbers give different summary entries |
| Issues.UpdateIssues | scripts/reporting/batch_script_utils.py:127-142 | the loop builds exactly the tags `#<number>` of the resolved issues (closed) and of the unresolved issues (commented), each in input order |
| Issues.PartitionSizes | scripts/reporting/batch_script_utils.py:132-138 | the closed and commented lists together have exactly as many entries as there are issues |
| Issues.NumbersWhereMember | scripts/reporting/batch_script_utils.py:135-138 | a number is listed under a flag if and only if some issue with that flag has that number |
| Issues.TagInTags | scripts/reporting/batch_script_utils.py:136-138 | an issue's `#<number>` tag is in a summary list if and only if its number is, because distinct numbers get distinct tags |
| Issues.ExactlyOneList | scripts/reporting/batch_script_utils.py:132-138 | with distinct issue numbers, each issue is named in the closed list if and only if it was resolved, and in the commented list if and only if it was not |

## Left out

- `\d` is modelled as the ASCII digits `0`-`9`. Python 3 also accepts other Unicode decimal digits, and strings using them are not covered.
- `run_command`, `get_open_issues`, `prompt_y_n` and `verify_scraped_issues` are not modelled: they run subprocesses, call the GitHub API and read the console.
- ScrapeMatchingIssues: the open issues are an input instead of being fetched with `get_open_issues`. The issue class's constructor is the `construct` parameter, and its `ValueError` is `None`; other exceptions are not modelled. The verbose printing of the error is left out.
- UpdateIssues: `test_commands()` and `update()` are external side effects on GitHub and are not modelled. Each issue's `resolved` flag is an input. The two lists are returned instead of printed, and the verbose printing (`', '.join`) is left out.
- ClassForLabel: the issue classes live in the `issues` module, which is not part of this model. They are represented as the four constants of `IssueClass`.
- `YEAR_EVENT_REGEX`, `MIDYEAR_EVENT_REGEX` and `EVENT_REGEX` (lines 6-8) are not modelled: no modelled function uses them. Line 8 refers to lower-case names that are never defined, so importing the module as written would raise `NameError`.
- StudyIds.MatchStarts and the lemmas about it require a positive window width. The study-ID width is 11, so this does not restrict the model of `extract_unique_study_ids`.
- Issue numbers are unbounded integers. Labels are compared by name, and titles are compared as code-point strings.
