# yio scraper core, modelled in Dafny

This project models the data-handling core of a scraper for the Yearbook of
International Organizations (YIO) website. The scraper walks the site's
subject listings. It turns each table row into a record of an organisation's
basic details and stores the record in an SQLite table, `organizations`.

Two further pieces of the core are modelled although the script does not
reach them:

- `extract_individual_org` breaks an organisation's own page into named
  sections and writes them to a JSON file. `main` never calls it.
- `DB.add_raw_columns` adds a column per section name to a second table,
  `organizations_raw`. No code in the repository calls it; the call near the
  sectioning code is commented out and names `add_columns`.

Modules, one file each:

- `Wrappers` (wrappers.dfy): `Option` and `Result`.
- `Strings` (strings.dfy): Python's `", ".join` and reading such a list back.
- `Text` (text.dfy): `strip`, `clean_text`, `namify`, `subject_url` and the
  `/(\d+)$` URL-id match.
- `Dicts` (dicts.dfy): an insertion-ordered Python `dict`. Assigning to an
  existing key keeps that key's position.
- `Rows` (rows.dfy): `extract_from_row`, with every error the source raises
  on a malformed row.
- `Sections` (sections.dfy): the sectioning loop of `extract_individual_org`.
  It runs over the flat list of the content element's children.
- `Store` (store.dfy): the `DB` methods `insert_org_basic` and
  `add_raw_columns`, as a class `Db`. Its fields are the columns of
  `organizations_raw` and the rows of `organizations`.

Whitespace is Python's `str.isspace` restricted to ASCII: characters 9 to 13
and 28 to 32. `lower()` maps only `A`-`Z`. The site's base URL
(`config.BASE_URL`) is a parameter. The table column whose uniqueness makes
`INSERT OR IGNORE` skip a record is also a parameter (`Db.keyColumn`),
because the schema file that declares it is not part of this model.

`extract_from_row` stores eleven keys, in the order of `Rows.RowKeys`:
`org_name`, `org_url`, `org_url_id` and the eight `_t` fields.

## Model

| member | source | states |
|---|---|---|
| Text.LeadingSpaces | scrape_yio.py:30 | the count of leading whitespace: all of it is whitespace and the next character is not |
| Text.TrailingSpaces | scrape_yio.py:30 | the count of trailing whitespace: all of it is whitespace and the character before is not |
| Text.Strip | scrape_yio.py:30 | `strip()`: the result starts and ends with no whitespace, and it is the slice of the input after its leading whitespace with only whitespace after it |
| Text.StripKeepsContent | scrape_yio.py:35 | stripping deletes only whitespace: the non-whitespace characters are unchanged, in order |
| Text.StripTrimmed | scrape_yio.py:30 | stripping an already stripped string changes nothing |
| Text.RemoveSpaceConcat | scrape_yio.py:35 | proof helper: deleting whitespace distributes over concatenation |
| Text.RemoveSpaceAllSpace | scrape_yio.py:35 | proof helper: a string of whitespace has no content left once whitespace is deleted |
| Text.Collapse | scrape_yio.py:35 | `re.sub("\s+", " ", ...)`: the result is empty iff the input is; it starts and ends with whitespace iff the input does; its only whitespace is single blanks; its non-whitespace characters are the input's, in order |
| Text.ConsKeepsShape | scrape_yio.py:35 | proof helper: putting one character before a collapsed string keeps it collapsed when that character is a blank not followed by whitespace |
| Text.CollapseCollapsed | scrape_yio.py:35 | collapsing a string with only single blanks changes nothing |
| Text.Words | scrape_yio.py:35 | the reference for where blanks go: the maximal runs of non-whitespace, each non-empty; a string that starts with a non-whitespace character has a first word starting with it |
| Text.CollapseWords | scrape_yio.py:35 | collapsing keeps the words, in order; with the end conditions of `Collapse`, each whitespace run becomes exactly one blank |
| Text.WordsAfterSpace | scrape_yio.py:30 | proof helper: whitespace before a string adds no word |
| Text.WordsBeforeSpace | scrape_yio.py:30 | proof helper: whitespace after a string adds no word |
| Text.StripWords | scrape_yio.py:30 | stripping keeps the words, in order |
| Text.CleanIsJoinedWords | scrape_yio.py:35 | a string with no whitespace at its ends and single blanks as its only whitespace is its words joined by `" "` |
| Text.CleanText | scrape_yio.py:33-35 | `clean_text`: no whitespace at either end, every whitespace run is a single blank, and no non-whitespace character is lost, added or reordered |
| Text.CleanTextWords | scrape_yio.py:33-35 | `clean_text` keeps the words of its input and is exactly those words joined by one blank each |
| Text.CleanTextIdempotent | scrape_yio.py:33-35 | cleaning cleaned text changes nothing |
| Text.Namify | scrape_yio.py:28-30 | `namify`: as long as the stripped heading, with no blank and no upper-case letter |
| Text.NamifyShape | scrape_yio.py:28-30 | `namify`: the result has no whitespace at its ends. Each blank of the stripped heading becomes `_`, each upper-case letter its lower-case form, and every other character is kept in place |
| Text.NamifyIdempotent | scrape_yio.py:28-30 | namifying a column name again changes nothing |
| Text.SubjectUrl | scrape_yio.py:38-41 | `subject_url`: the URL starts with the base URL and the listing path `/ybio/?wcodes=`, ends with `&wcodes_op=contains`, and is as long as those pieces and the subject together |
| Text.SubjectUrlRoundTrip | scrape_yio.py:38-41 | the subject can be read back from its listing URL, whatever `page` is |
| Text.SubjectUrlInjective | scrape_yio.py:38-41 | two listing URLs are equal iff their subjects are; `page` has no effect |
| Text.TrailingDigits | scrape_yio.py:138 | the count of digits that end a string: all digits, and the character before is not a digit |
| Text.UrlId | scrape_yio.py:138-139 | the URL-id match: it succeeds iff the URL, or the URL without one final line feed, ends in `/` and one or more digits. On success the id is exactly those digits |
| Strings.Join | yio.py:148-149 | `sep.join(xs)`: the empty list joins to `""`, and a non-empty list's join starts with its first item |
| Strings.JoinOntoFirst | scrape_yio.py:35 | proof helper: a character put before the first item comes first in the join |
| Strings.JoinAvoids | yio.py:148-149 | proof helper: a character in no item and not in the separator is not in the join |
| Strings.IndexOf | yio.py:148 | proof helper: the first position of a character, or the length when it is absent |
| Strings.IndexOfConcat | yio.py:148 | proof helper: in `a + b`, where `b` starts with a character that `a` lacks, that character is found at `\|a\|` |
| Strings.SplitJoin | yio.py:148-149 | a non-empty list joined with `", "` reads back as the same list when its items hold no comma |
| Dicts.Dict.Set | scrape_yio.py:136-149 | `d[k] = v`: the value is replaced; a new key goes last and an existing key keeps its place; validity is kept |
| Dicts.Empty | scrape_yio.py:131 | `{}` has no keys |
| Dicts.SetAll | scrape_yio.py:136-149 | assigning a list of keys in turn keeps the dict valid |
| Dicts.SetAllFreshKeys | scrape_yio.py:136-149 | assigning new, distinct keys in turn appends them in order |
| Dicts.SetAllValues | scrape_yio.py:136-149 | assigning distinct keys in turn leaves each holding its value, and every other key keeps its value |
| Rows.RowKeysDistinct | scrape_yio.py:136-149 | the eleven keys are distinct |
| Rows.RowValues | scrape_yio.py:136-149 | there is one value per key |
| Rows.ConvertBlanks | scrape_yio.py:151-154 | every value equal to `''` becomes `None`; keys, their order and all other values are unchanged |
| Rows.FillRecord | scrape_yio.py:136-154 | the record has exactly the given keys in order, each holds its value or `None` where blank, and no value is left blank |
| Rows.ExtractFromRow | scrape_yio.py:130-156 | a row fails iff the source raises on it, with the error it reaches first: no cell, no link, no `href`, no URL id, fewer than nine cells. Otherwise the record has the eleven keys in order, each holding its cleaned value or `None` where blank, and no value is blank |
| Sections.SectionParts | scrape_yio.py:70-76 | a section has at most one part per node |
| Sections.SectionText | scrape_yio.py:79 | a heading followed directly by another heading, or by nothing, gets the empty string |
| Sections.RawData | scrape_yio.py:65-79 | the dict stays valid and `org_name` remains its first key |
| Sections.CollectSection | scrape_yio.py:70-76 | the inner sibling loop collects exactly the section's parts: it stops at the next heading and skips bare line feeds |
| Sections.ExtractIndividualOrg | scrape_yio.py:62-79 | the loop over headings builds exactly `RawData` over all nodes |
| Sections.HeadingKeyAmongIff | scrape_yio.py:62-79 | proof helper: the recursive "some heading namifies to `k`" agrees with its existential reading |
| Sections.RawDataKeys | scrape_yio.py:65-79 | the keys of the dict are exactly `org_name` and the namified headings |
| Sections.LastHeadingWins | scrape_yio.py:79 | a heading's key holds its own section text when no later heading has the same key; a later one overwrites it |
| Sections.NameKept | scrape_yio.py:66 | the cleaned organisation name stays under `org_name` unless a heading namifies to `org_name` |
| Sections.SectionStopsAtHeading | scrape_yio.py:72-73 | a section ends at the next heading: what follows does not affect it |
| Sections.SectionPartsConcat | scrape_yio.py:71-76 | before the next heading, the parts of `a + b` are those of `a` followed by those of `b` |
| Sections.SectionSkipsLineFeed | scrape_yio.py:75-76 | inside a section, a bare line feed leaves no part and any other non-heading node leaves its rendering, in place |
| Sections.SectionKeepsOrder | scrape_yio.py:75-76 | a section of non-heading nodes none of which is a bare line feed yields each node's rendering, in document order |
| Store.InsertStatement | yio.py:148-152 | read back, the statement names the record's keys as its columns in order and each key's placeholder at the same place, when there is a key and no key holds a comma or a closing parenthesis |
| Store.InsertListsAlign | yio.py:148-149 | the column list reads back as the record's keys in order, and the placeholder list as `":" + key` for each key, in order |
| Store.ParseInsertLists | yio.py:151-152 | proof helper: the two lists are found again in the statement when the column list has no closing parenthesis |
| Store.Insert | yio.py:151-153 | `INSERT OR IGNORE`: stored rows stay as they were, at most one row is added, and an added row is the record |
| Store.InsertKeepsUnique | yio.py:151-153 | `INSERT OR IGNORE` keeps the conflict column unique. Afterwards a row holding the record's non-NULL key value is stored: the record itself, or the row that made it conflict |
| Store.InsertTwice | yio.py:151-153 | inserting the same keyed record twice stores it once |
| Store.InsertedMessage | yio.py:155-158 | the log line opens with `Inserted ` followed by the organisation's name |
| Store.SkippedMessage | yio.py:159-162 | the log line opens with `Skipping ` followed by the organisation's name |
| Store.Db.constructor | yio.py:170-188 | a fresh database has no `organizations_raw` columns and no rows, and is valid |
| Store.Db.InsertOrgBasic | yio.py:147-164 | builds the statement from the record's keys. The record is inserted iff no stored row holds its non-NULL key value, and the table grows by that row or is unchanged. The log line says "Inserted" or "Skipping" accordingly. The columns are untouched and validity is kept |
| Store.Db.AddRawColumns | yio.py:170-207 | the table gets `fk_org` when it has no columns. It then gains one `text` column for each requested name it lacks, each once, after the existing columns. With every name already present, nothing changes. Column names stay distinct and `organizations` is untouched |
| Store.SetOrder | yio.py:205 | iterating over a set visits each member exactly once |
| Store.AppendKeepsDistinct | yio.py:201-207 | proof helper: appending columns with new, distinct names keeps column names distinct |

## Left out

- HTTP, the YIO login, the session, waiting, the `config` module and logging to a file are left out. They are I/O. The two log lines of `insert_org_basic` are returned as a string.
- `parse_subject_page` and `main` are left out: they fetch pages, follow the pager and loop over subjects.
- HTML parsing is left out. A listing row is given as its cells' text and the `href`s of its first cell's links. An organisation page is given as the content element's children, with scripts already removed. `findAll("h2")` also finds headings nested inside other tags; the model sees only top-level headings.
- The JSON dump of `extract_individual_org` is left out; it is file output.
- `DB.__init__`, `create`, `close` and the row factory are left out. The constructor stands for a freshly created database. SQL text is not executed: the model tracks the tables' effect.
- Store.Db.AddRawColumns: SQLite compares identifiers case-insensitively and the source does not quote them. A name that clashes in another case, or that is not a valid identifier, makes the source's `ALTER TABLE` fail, and the model does not capture this.
- Store.Db.InsertOrgBasic: requires the `org_name` and `org_url_id` keys. Without them the source's log line raises `KeyError` after executing the insert and before committing; every caller's record has both keys.
- Store.Db.InsertOrgBasic: the unique column is a parameter and NULL values never conflict, as in SQLite. Other constraints of the unshown schema, such as NOT NULL columns, are not modelled.
- Store.Db.InsertOrgBasic: stores a record whatever its keys. In the source, a key that is not a column of `organizations` makes `execute` raise (yio.py:153), and nothing is stored.
- Text.CleanText, Text.NamifyShape, Text.UrlId: whitespace, `\d` and `lower()` are ASCII only. Python's Unicode whitespace, Unicode digits and full case mapping are not modelled.
- Text.SubjectUrlRoundTrip: the subject is inserted into the URL unescaped, as in the source; URL encoding is not modelled.
- `manual_copy_paste.py` and `clean_raw_orgs.py` are not part of this model.
