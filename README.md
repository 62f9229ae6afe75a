# Document search of the "SEARCH TASK" window

The program is a small desktop utility. The user types a term. `search_term`
(`week01/notebooks/01_intro.py`) then walks a fixed directory of documents in
listing order. It keeps the files whose name ends in `.txt` and whose text,
lower-cased, contains the lower-cased term. A popup then lists the kept names
under a header naming the term, or says that the term appears in no document.

This project models that function in Dafny, in three modules:

- `Text` (`text.dfy`): the string operations the search uses. `Lower` is
  `str.lower`, on ASCII letters only. `EndsWith` is `str.endswith`.
  `IsSubstring` is the `in` test on strings.
- `Search` (`search.dfy`): the filter loop of lines 13-21 and the whole
  handler. The directory is a `seq<Entry>` of (name, text) pairs in listing
  order, and the term is a parameter. `CollectMatches` is the loop that appends
  to `results`. It is proved equal to the function `MatchList`, which builds
  the list from the end of the listing the same way. The lemmas about
  `MatchList` cover soundness, completeness, order, the empty term and case
  insensitivity. Two lemmas work through concrete listings.
- `Report` (`report.dfy`): the popup text of lines 24-30. `ComposeMessage` is
  the loop that appends one `- name` line per result with `+=`. It is proved
  equal to the function `Message`. The parser `ParseMessage` reads a message
  back, and the round-trip lemma shows that the text determines the result
  list.

## Model

| member | source | states |
|---|---|---|
| `Text.LowerChar` | week01/notebooks/01_intro.py:19-20 | an upper-case ASCII letter becomes its lower-case letter (code point plus 32); any other character is kept; the result is never upper-case |
| `Text.Lower` | week01/notebooks/01_intro.py:19-20 | lower-casing keeps the length; at each position an `A`-`Z` letter becomes its lower-case letter and any other character is kept, so no upper-case ASCII letter is left |
| `Text.LowerIdempotent` | week01/notebooks/01_intro.py:19-20 | lower-casing an already lower-cased string changes nothing |
| `Text.EndsWith` | week01/notebooks/01_intro.py:14 | a name ends with a suffix exactly when the suffix is no longer than the name and the name's last characters are the suffix |
| `Text.IsSubstring` | week01/notebooks/01_intro.py:20 | a term can occur only in a text at least as long as itself, and every text occurs in itself |
| `Text.EmptyIsSubstring` | week01/notebooks/01_intro.py:20 | the empty term occurs in every text |
| `Search.Accepts` | week01/notebooks/01_intro.py:14-20 | an accepted entry has a name of at least four characters ending in `t` and a text at least as long as the term |
| `Search.MatchList` | week01/notebooks/01_intro.py:13-21 | the result list never has more names than the listing has entries |
| `Search.TextFiles` | week01/notebooks/01_intro.py:14 | the suffix filter alone keeps only names ending in `.txt` |
| `Search.TextFilesComplete` | week01/notebooks/01_intro.py:13-14 | every entry whose name ends in `.txt` has its name kept by the suffix filter |
| `Search.CollectMatches` | week01/notebooks/01_intro.py:13-21 | the loop's `results` is the in-order list of names of the `.txt` entries whose lower-cased text contains the lower-cased term |
| `Search.SearchTerm` | week01/notebooks/01_intro.py:7-30 | the handler computes that result list and the popup text for it |
| `Search.MatchListSound` | week01/notebooks/01_intro.py:14-21 | every reported name ends in `.txt` and belongs to an entry whose lower-cased text contains the lower-cased term |
| `Search.MatchListComplete` | week01/notebooks/01_intro.py:13-21 | every `.txt` entry whose lower-cased text contains the lower-cased term has its name reported |
| `Search.MatchListInOrder` | week01/notebooks/01_intro.py:13-21 | the result is exactly the subsequence of accepted entries: strictly increasing positions, one per reported name, covering every accepted entry |
| `Search.MatchListEmptyTerm` | week01/notebooks/01_intro.py:20 | the empty term reports every `.txt` entry, so the result equals the suffix filter alone |
| `Search.MatchListCaseInsensitive` | week01/notebooks/01_intro.py:19-20 | two terms with the same lower-case form give identical results |
| `Search.LowerTermSameMatches` | week01/notebooks/01_intro.py:19-20 | searching for a term and for its lower-cased form gives the same result |
| `Search.HelloCaseInsensitive` | week01/notebooks/01_intro.py:19-20 | "Hello" and "HELLO" give identical results on every listing |
| `Search.QuickFoxContainsQuick` | week01/notebooks/01_intro.py:19-20 | "the quick fox" contains "quick" |
| `Search.LazyDogLacksQuick` | week01/notebooks/01_intro.py:19-20 | "the lazy dog" does not contain "quick" |
| `Search.HelloWorldContainsWorld` | week01/notebooks/01_intro.py:19-20 | "Hello World" contains "WORLD" once both are lower-cased |
| `Search.LogFileIsNotText` | week01/notebooks/01_intro.py:14 | the name `c.log` does not end in `.txt` |
| `Search.QuickFoxScenario` | week01/notebooks/01_intro.py:13-21 | for the listing a.txt "the quick fox", b.txt "the lazy dog", c.log "the quick fox", the term "quick" reports exactly a.txt |
| `Search.WorldScenario` | week01/notebooks/01_intro.py:19-21 | the term "WORLD" finds a.txt holding "Hello World" |
| `Report.Header` | week01/notebooks/01_intro.py:25 | the opening of the found message: "The term '", the term, and "' was found in the following documents:" with a blank line |
| `Report.NotFoundMessage` | week01/notebooks/01_intro.py:30 | the whole message when nothing was found: "The term '", the term, and "' does not appear in any document." |
| `Report.Bullet` | week01/notebooks/01_intro.py:27 | the line added for one document: "- ", the name, and a line break |
| `Report.BulletShape` | week01/notebooks/01_intro.py:27 | a bullet line is three characters longer than the name, starts with "- ", holds the name next and ends in a line break; for a name without line breaks it is exactly one line |
| `Report.Bullets` | week01/notebooks/01_intro.py:26-27 | for names without line breaks the bullet text has exactly one line break per name |
| `Report.Message` | week01/notebooks/01_intro.py:24-30 | the popup text: the header followed by the bullet lines when there are results, the "does not appear" sentence otherwise |
| `Report.MessageShape` | week01/notebooks/01_intro.py:24-30 | every message starts with "The term '" and the term; the found form has the header's blank line right before the bullet lines, and the other form continues with "' does not appear in any document." |
| `Report.BulletsAppend` | week01/notebooks/01_intro.py:26-27 | appending a document to the list appends its `- name` line to the bullet text |
| `Report.ComposeMessage` | week01/notebooks/01_intro.py:24-30 | the message is the header followed by one bullet line per result in order when there are results, and the "does not appear" sentence otherwise |
| `Report.ReadBulletsStep` | week01/notebooks/01_intro.py:27 | a bullet line for a name without line breaks is read back as exactly that name |
| `Report.ReadBulletsRoundTrip` | week01/notebooks/01_intro.py:26-27 | the bullet text is read back as exactly the list of names, one line each, in order |
| `Report.MessageRoundTrip` | week01/notebooks/01_intro.py:24-30 | the popup text for a term determines the result list: the found message gives back every name in order, and the "does not appear" message gives back the empty list |
| `Report.FoundDiffersFromNotFound` | week01/notebooks/01_intro.py:24-30 | a message listing documents never equals the "does not appear" message |

## Left out

- The Tk window, label, entry field, button and main loop (lines 33-48) are not modelled. They are user-interface code with no behaviour of their own. The term read from the entry field (line 8) is a parameter.
- `messagebox.showinfo` (lines 28 and 30) is not modelled. The model produces the message string the popup receives.
- Filesystem I/O is not modelled: `os.listdir`, `os.path.join`, `open`, `read` and UTF-8 decoding (lines 13, 15, 18-19). The directory is an input sequence of (name, text) pairs in listing order. An entry's text is what reading the file in text mode returns: decoded from UTF-8, with `\r\n` and `\r` turned into `\n`. The source does not handle a missing directory, an undecodable file, an unreadable file or a subdirectory whose name ends in `.txt` (for which `open` raises); each of these crashes the handler, so the model has no error path for them.
- The folder constant `./libros` (line 10) is configuration and does not appear in the model.
- `Text.Lower`: lower-cases the ASCII letters `A`-`Z` only, because Python's `str.lower` applies full Unicode case mapping from tables that are not part of this model.
- `Report.MessageRoundTrip`: applies only to file names that contain no line break. A name holding `\n` would make the bullet lines ambiguous.
