# president-wiki-data, modelled in Dafny

The repository scrapes a US president's Wikipedia page. `President(soup)` finds the
`table.infobox.vcard` of the page and reads from it the president's name, the offices held
(title, start date, end date), the political party, the birth and death dates and the
president's number (the leading digits of the first office title, as in "44th President of
the United States"). `compile_president` returns these as a dictionary, and
`download_image` fetches the portrait whose URL is the first `upload…jpg` of the first
image's `src`. The helpers in `utils.py` turn a name into a file name or a Wikipedia URL,
clean whitespace out of job titles, extract "Month D, YYYY" dates with a regular expression,
and crop a portrait to a target height by deleting its last row again and again.

The model has four files:

- `wrappers.dfy` — `Option` and `Result`, used for the `None` results and for the exceptions
  the scraper raises.
- `pystr.dfy` — the Python string builtins the code uses (`lower`, `strip`, `split`, `join`),
  the ASCII character classes behind `\s`, `\d` and `[A-Za-z]`, and `FindAll`: `re.findall`
  over a table that records, for every index, where the pattern's match starting there ends.
- `utils.dfy` — `to_fname`, `to_url`, `clean_extra_spaces` (the `re.sub` of `(\s\s)+` as a
  scanner), `extract_dates` (the date pattern as a scanner, fed to `FindAll`), and the row
  deletion loop of `resize` as a method on the pixel rows.
- `president.dfy` — the infobox as a value (rows of `th`/`td` cells with their attributes and
  text, the text of the name element, the attributes of the images), each `parse_*` step as a
  function, `compile_jobs` as a loop proved against a specification function, the order in
  which `__init__` runs the steps and which failure wins, and the class `President` whose
  fields are set once by `Init`.

Where the written description of the scraper and its code differ, the model follows the
code:

- A job is kept only when its dates cell yields at least two dates; a title whose cell has
  one date (an office still held) or whose cell is missing is dropped. The job record always
  has a start and an end; they are never absent.
- The number is the digit string, not an integer.
- `clean_extra_spaces` removes whitespace two characters at a time: a run of odd length
  leaves one character (its last), a run of even length disappears.
- The header lookups match the label as a case-sensitive substring of the header text.
- A "Died" header whose cell holds no date makes the whole parse fail, as does a negative
  target height in `resize` (it deletes rows past the last one).

## Model

| member | source | states |
|---|---|---|
| Utils.ToFname | utils.py:18 | the file name ends with the extension; its stem is the lower-cased name with every '.' removed and every space replaced by '_' (so its length is the name's length minus the number of dots), and contains no '.', no space and no upper-case letter |
| Utils.ToUrl | utils.py:30-31 | the URL is the Wikipedia prefix followed by the name, character for character, with each space written as '_' |
| PyStr.JoinSplit | utils.py:30 | joining `split(" ")` with "_" is the same as replacing every space by '_' |
| PyStr.JoinSplitRoundTrip | utils.py:30 | joining the parts of a split with the separator gives back the original text |
| Utils.PairsMatchIsEvenRun | utils.py:43 | the greedy `(\s\s)+` at a whitespace run matches the whole run when its length is even and all but its last character when odd |
| Utils.SubPairsNoLonger | utils.py:43 | the substitution only deletes: its result is never longer than the text scanned |
| Utils.SubPairsOddRun | utils.py:43 | at a run of odd length the substitution keeps exactly the run's last character and continues after the run |
| Utils.SubPairsEvenRun | utils.py:43 | at a run of even length the substitution removes the whole run |
| Utils.SubPairsCollapsesRuns | utils.py:43 | the `re.sub` scanner equals the run-by-run reading (odd run → its last character, even run → nothing, other characters copied) on every input |
| Utils.CleanExtraSpaces | utils.py:43 | the result has no two adjacent whitespace characters, neither starts nor ends with whitespace, and keeps every non-whitespace character of the input in order |
| Utils.CleanExtraSpacesByRuns | utils.py:43 | the cleaner is the strip of the run-by-run reading |
| Utils.CleanExtraSpacesIdempotent | utils.py:43 | cleaning a cleaned title changes nothing |
| Utils.DateShape | utils.py:55 | a date is at least nine characters long, contains a comma, starts with a letter and ends with a digit |
| Utils.MatchDateParts | utils.py:55 | letters, whitespace, digits, ',', whitespace and four digits at i are matched by the scanner up to the end of the fourth digit |
| Utils.MatchDateAtIff | utils.py:55 | the pattern matches at index i up to e exactly when the text between them is a date; there is one match per start |
| Utils.ExtractDates | utils.py:46-55 | one string per match that findall reports |
| Utils.ExtractDatesAreDates | utils.py:55 | every string `extract_dates` returns is a date of at least nine characters |
| Utils.ExtractDatesAreLeftmostMatches | utils.py:55 | the results are the texts of ordered, non-overlapping matches, each a match at its start, and every index where the pattern matches lies inside one of them |
| Utils.ExtractDatesStartAtWords | utils.py:55 | every result starts at the beginning of a run of letters |
| Utils.ExtractDatesNeedsComma | utils.py:55 | a text without a comma yields no dates |
| Utils.ExtractDatesUnanchored | utils.py:55 | "January 1, 20201" yields ["January 1, 2020"]: the year is not anchored |
| FindAll.Scan | utils.py:55 | findall's matches lie within the text, each is a match of the pattern at its start, and they are ordered and do not overlap |
| FindAll.ScanLeftmost | utils.py:55 | findall misses no index where the pattern matches |
| FindAll.ScanFirst | utils.py:55 | findall is empty exactly when the pattern matches nowhere, and its first result is the first index where it matches |
| Utils.Crop | utils.py:77-79 | the rows kept are the first `target_height` rows, unchanged, or all rows when the image is not taller |
| Utils.ResizeRows | utils.py:71-79 | deleting the last row `height - target_height` times gives the crop to the target height; a negative target fails with no row left to delete |
| President.FindAllTextsAppend | president.py:79-81 | `findAll` keeps document order: the matches in two consecutive stretches of cells are those of the first followed by those of the second |
| President.FindAllTextsMembers | president.py:79-81 | every cell with the tag, `colspan="2"` and the exact style is reported, and nothing else is |
| President.FindAllTextsNone | president.py:89-91 | with no selected cell the result is empty |
| President.ParseJobs | president.py:79-82 | one title per title cell, in order; the k-th title is `clean_extra_spaces` of the k-th cell's text, so it has no two adjacent whitespace characters, no outer whitespace, and the non-whitespace characters of its cell |
| President.ParseJobsDates | president.py:89-92 | one list per dates cell, in order; the k-th list is `extract_dates` of the k-th cell's text |
| President.ParseJobsDatesAreDates | president.py:89-92 | one list per dates cell, the findall matches of its text, each a date |
| President.CompileJobs | president.py:128-140 | the loop builds exactly the job list of the specification function `CompiledJobs` |
| President.JobsUpToByPosition | president.py:131-139 | the k-th job is (title, first date, second date) of the k-th kept position, and there are as many jobs as kept positions |
| President.KeptUpToIndices | president.py:131-139 | kept positions are increasing, and a position is kept exactly when its dates list exists and has two entries |
| President.JobsUpToLength | president.py:131-139 | there are at most as many jobs as titles, and exactly as many exactly when every position has two dates |
| President.JobsUpToIgnoresExtraDates | president.py:131 | dates cells after the last title do not change the job list |
| President.SingleDateDropped | president.py:135-138 | a title whose cell holds a single date yields no job of its own |
| President.DroppedJobShortens | president.py:138-139 | a dropped position leaves fewer jobs than titles |
| President.JobsHaveDates | president.py:128-137 | every job's start and end are dates |
| President.FindLabelledIff | president.py:99-100 | the header lookup finds nothing exactly when no header cell of the infobox contains the label |
| President.FindLabelled | president.py:109 | when no header is found, no row holds a header cell containing the label |
| President.FindLabelledFirstRow | president.py:109-110 | a found header belongs to the first row holding a labelled header, and its value is the text of the first `td` after that header in the row |
| President.NextTd | president.py:101 | the sibling lookup gives the text of the first `td` after the header in its row, and nothing when there is none |
| President.ParseName | president.py:71 | the name is the stripped text of the name element; it fails exactly when there is none |
| President.FirstWordIsMaximal | president.py:102 | the first word is a non-empty run of letters with no letter before it and none right after it |
| President.FirstWord | president.py:102 | `findall("([A-Za-z]+)")` is empty exactly when the text has no letter |
| President.FirstWordExample | president.py:102 | the party cell "Democratic (1992–2001)" gives "Democratic" |
| President.ParseParty | president.py:99-102 | the party is the first word of the stripped text of the cell next to the "Political party" header; the parse fails with a missing cell exactly when the header or its `td` is missing, otherwise only for want of a letter |
| President.ParsePartyNeedsLetter | president.py:101-102 | with a party cell present, the parse fails exactly when the stripped cell text has no letter |
| President.FirstDate | president.py:110-111 | the first date of the stripped cell text, nothing when findall is empty |
| President.ParseBirthDeath | president.py:109-121 | the born date is the first date of the "Born" cell and the death date the first date of the "Died" cell, or absent when there is no "Died" header; the parse succeeds exactly when the "Born" cell exists and holds a date and there is either no "Died" header or a "Died" cell holding a date |
| President.ParseBirthDeathDates | president.py:109-121 | both dates are dates; a missing "Born" header fails; a "Died" header succeeds only with a date in its cell |
| President.ParseNumber | president.py:32-33 | the number is the maximal run of leading digits of the first title, non-empty; it fails with no jobs, or when the first title does not start with a digit |
| President.ParseNumberExample | president.py:32-33 | "44th President of the United States" gives "44" |
| President.Extract | president.py:25-33 | no infobox fails with NoInfobox; on success the name, party and dates are exactly what their parsing steps give, the jobs are the compiled jobs of the page and the number is parsed from them |
| President.ExtractSucceedsIff | president.py:25-33 | the scrape succeeds exactly when every step does; then the number is digits, the party letters, and born, died and every job's dates are dates |
| President.ExtractNameFirst | president.py:27-28 | a missing name is the error whatever else is missing |
| President.ExtractPartySecond | president.py:28-30 | with a name, a party failure is reported before the dates and the number |
| President.ExtractDatesThird | president.py:28-31 | with a name and a party, a date failure is reported before the number |
| President.ExtractNumberLast | president.py:32-33 | when every earlier step succeeds, a failure of the number is the scraper's failure |
| President.President.Init | president.py:25-33 | constructs a president exactly when the scrape succeeds, with fields equal to the scraped record; otherwise fails with the same error |
| President.President.constructor | president.py:25-33 | takes only a record that the scraper extracts from the infobox, and sets the fields to it, so `Valid` holds: the fields are the scrape of the infobox |
| President.President.CompilePresident | president.py:160-167 | for a valid president each entry is what its parsing step gives on the infobox (name, party, birth and death dates, the compiled jobs, the number parsed from them), with the number all digits, the party all letters and the dates dates |
| President.FirstUploadIsLeftmost | president.py:152 | findall's first match of `upload.+jpg` is the leftmost index where the pattern matches, and there is none when it matches nowhere |
| President.MatchUploadAt | president.py:152 | a match at i is "upload" at i, at least one character, and "jpg" at its end, with no newline in between |
| President.FirstUpload | president.py:152 | findall's first match lies in the text, starting at or after the search start |
| President.LastJpg | president.py:152 | the greedy `.+` ends at the last "jpg" that fits on the line |
| President.UploadSpansFirstToLast | president.py:152 | on a one-line `src` the match runs from the first "upload" to the last "jpg" |
| President.MatchEndsAtLastJpg | president.py:152 | on a one-line text a match ends at the text's last "jpg" |
| President.President.ImageUrl | president.py:151-152 | the URL is "https://" followed by the text of findall's first match of `upload.+jpg` in the first image's `src`, which starts with "upload" and ends with "jpg"; it fails exactly when there is no image, no `src`, or no match |

## Left out

- Network and file I/O: `from_wiki` (the `requests.get` of `to_url(name)` and its catch-all that prints and returns None), `from_text_file`, the `urlretrieve` of `download_image`, and `Image.open`, `Image.fromarray` and `save` in `resize`. The model starts from the parsed infobox and the decoded pixel rows, and `ImageUrl` stops at the URL.
- HTML parsing: BeautifulSoup's tree and search semantics are not modelled. The infobox is an input value (rows of cells, the name element's text, the image attributes). The `class_` match of `table.infobox.vcard` and `div.fn` is taken as found or not found, and a header's `text=` match is taken to see the header's whole text.
- Unicode: letters, digits and whitespace are ASCII (`[A-Za-z]`, `0`-`9`, and space, tab to carriage return, and the four separators 0x1C–0x1F). Python's Unicode `\d`, `\s`, `isspace` and `lower` are wider.
- numpy: the pixel array is a sequence of rows of any pixel type; width, channels and dtype are carried along unchanged and not modelled.
- The unused `pandas` import and the unused `width` in `resize`.
