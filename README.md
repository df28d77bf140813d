# Release classification and upload helpers, modelled in Dafny

This project models the decision logic of three scripts that prepare releases for private
trackers:

- `ts-poster.py` uploads a release. It extracts the IMDB id from the NFO text and derives
  the category and the release group from the directory name. It classifies the group as
  scene or P2P through a store of two text files, `p2p.txt` and `scene.txt`. When the group
  is in neither file, it asks the operator and records the answer. Then it posts the payload.
- `fix-nfo.py` finds the `*.nfo` file of a release directory. It takes the expected NFO
  details from a lookup service and compares the two.
- `ptp-image.py` logs in to an image host and uploads PNG files as a multipart form. It turns
  the host's answer into image URLs.

Modules:

- `Results` (`results.dfy`): `Option`, `Result` and `Outcome`. These stand for `None`
  returns and raised exceptions.
- `PyText` (`py_text.dfy`): the Python semantics the scripts rely on. This covers
  `sub in s` on strings, `s.split('-')`, iterating over the lines of a text file and
  `str(i)`. Each comes with its characterisation and round-trip lemmas.
- `TsPoster` (`ts_poster.dfy`): `get_imdbid`, `get_category`, `get_group`, the store and
  `get_release_type`, and the order of the steps of `main`. The store is the class
  `ClassificationStore`. It holds the lines of both files and is updated in place. Its
  methods are proved against the pure `StoreState`/`ReleaseTypeRun` specification, and the
  lemmas about that specification state the memoisation.
- `FixNfo` (`fix_nfo.dfy`): the `.*\.nfo$` test, `get_nfo_name`, `find_nfo_file`, the
  field selection of `get_nfo_details` and `is_nfo_mismatch`.
- `PtpImage` (`ptp_image.dfy`): the debug proxy and TLS settings, the login acceptance rule,
  the image URL format, the multipart form and `upload`.

Inputs from the outside world become parameters:

- the text of each readable file, as a map from path to text;
- the operator's successive answers to `input()`, as a sequence; running out of answers is
  the `EOFError` of `input()`;
- each HTTP response, as a status and a body;
- decoded JSON, as records;
- whether an image file exists, as a flag on the image.

## Where the code departs from its evident intent

The model follows the code as written in each case below.

- `get_category` (ts-poster.py:34) reads `'2160p' or ('COMPLETE.UHD.BLURAY' in dirname)`.
  A non-empty literal is truthy, so every name gets category 42 (`MOVIE_2160`). The 1080p
  branch and the `Unknown category` error (ts-poster.py:36-38) cannot be reached.
- After recording an answer, `get_release_type` calls itself, discards the result and
  returns `None` (ts-poster.py:70). So the first classification of a group puts no release
  type in the payload.
- The lookup searches one line at a time (ts-poster.py:45-46). A group with a `'\n'` before
  its last character is written as two lines and is never found again, so the recursive
  call prompts again (`NewlineValueNotFoundAfterAppend`, for `A\nB`). A `'\r'` is read back
  as a line break in text mode, so the same holds for a group holding one (the model does
  not translate it; see "## Left out"). For any other group, exactly one prompt is made
  (`OneAnswerSettlesGroup`). This includes a group whose only `'\n'` is its last character:
  it is found, with that `'\n'`, at the end of its line.
- An exception in `ts-poster.py` is caught by `except Exception` (ts-poster.py:125). It is
  logged and the process exits with status 0. Only a rejected upload calls `sys.exit(1)`
  (`ExitStatus`).
- `is_nfo_mismatch` returns true when the found name EQUALS the expected one
  (fix-nfo.py:76).

## Model

| member | source | states |
|---|---|---|
| `PyText.Contains` | ts-poster.py:46 | `value in line` is true exactly when `value` occurs at some offset of `line` |
| `PyText.Split` | ts-poster.py:57 | `split('-')` gives at least one piece, no piece holds `-`, and a string without `-` is its own single piece |
| `PyText.JoinSplit` | ts-poster.py:57 | joining the pieces of a split with `-` gives back the string |
| `PyText.SplitJoin` | ts-poster.py:57 | splitting the join of `-`-free pieces gives back the pieces |
| `PyText.LastPieceIsSuffix` | ts-poster.py:57 | the last piece is a suffix that is the whole string or is preceded by the separator |
| `PyText.LineLength` | ts-poster.py:45 | a line read from a file ends at its first `'\n'`, which it keeps, or at the end of the text |
| `PyText.SplitLines` | ts-poster.py:44-45 | the lines of a text, none exactly for the empty text and never more than its characters; `ConcatSplitLines`, `SplitLinesWellFormed` and `SplitLinesConcat` state they are exactly what `for line in file` yields |
| `PyText.ConcatSplitLines` | ts-poster.py:44-45 | the lines read from a file concatenate to the file's text |
| `PyText.SplitLinesWellFormed` | ts-poster.py:44-45 | the lines read from any text are non-empty, have `'\n'` only at their end, and end with it except possibly the last |
| `PyText.SplitLinesConcat` | ts-poster.py:44-45 | reading back the text of well-formed lines gives those lines |
| `PyText.SplitLinesAppend` | ts-poster.py:52-54 | text that ends with a newline does not merge with what is appended after it |
| `PyText.LastLineHoldsWord` | ts-poster.py:52-54 | after appending a newline-free word and `'\n'` to any text, the last line holds the word followed by that `'\n'` |
| `PyText.LineLengthOfLine` | ts-poster.py:45 | a line with `'\n'` only at its end is read back whole, whatever follows it |
| `PyText.LineLengthOfPrefix` | ts-poster.py:45 | text holding a `'\n'` keeps its first line when more text is appended |
| `PyText.NatToString` | ptp-image.py:82 | `str(i)` is a non-empty string of decimal digits with no leading zero |
| `PyText.ParseNatToString` | ptp-image.py:82 | reading the digits of `str(i)` back gives `i` |
| `PyText.NatToStringInjective` | ptp-image.py:82 | different indices format differently |
| `TsPoster.AnswerFile` | ts-poster.py:65-68 | an answer selects a store file exactly when it is `p2p` or `scene`, and the selected type's value is the answer |
| `TsPoster.Value` | ts-poster.py:28-30 | the `StrEnum` values: `p2p` exactly for `P2P`, `scene` exactly for `SCENE` |
| `TsPoster.CategoryCode` | ts-poster.py:23-25 | the enum values: 42 exactly for `MOVIE_2160`, 9 exactly for `MOVIE_1080` |
| `TsPoster.ImdbMatchLength` | ts-poster.py:17 | the match at an offset has 9 or 10 characters, all digits after `tt`, and takes the eighth digit whenever one follows |
| `TsPoster.FirstImdbMatch` | ts-poster.py:17 | the offset returned is a match and no earlier offset matches; none is returned only when no offset matches |
| `TsPoster.SearchImdbId` | ts-poster.py:17-19 | an id is found iff `tt` plus seven digits occurs; it is the leftmost match with greedy length; it starts with `tt`, has 9 or 10 characters, digits after `tt`, and occurs in the text |
| `TsPoster.GetImdbId` | ts-poster.py:14-20 | a missing NFO raises a file error, a text without a match raises `ImdbIdNotFound`, otherwise the id is an IMDB id occurring in the NFO |
| `TsPoster.ImdbIdInText` | ts-poster.py:17-19 | `tt1234567` inside other text is found as `tt1234567` |
| `TsPoster.ImdbIdTakesEightDigits` | ts-poster.py:17 | with nine digits after `tt`, the id takes eight of them |
| `TsPoster.ImdbIdNeedsSevenDigits` | ts-poster.py:17-20 | `tt` followed by six digits is not an id |
| `TsPoster.GetCategory` | ts-poster.py:33-38 | every directory name gets `MOVIE_2160` (code 42); no name raises |
| `TsPoster.GetGroup` | ts-poster.py:56-57 | the group holds no `-`, ends the name, and is the whole name or follows a `-` (the whole name when it has no `-`) |
| `TsPoster.GroupIsTextAfterLastDash` | ts-poster.py:56-57 | for `prefix-word` with a dash-free word, the group is the word |
| `TsPoster.StoreState.Append` | ts-poster.py:52-54 | `append_new_line`: the chosen file's lines become those of its text followed by `line + '\n'`; `AppendText`, `AppendValid` and `AppendKeepsLines` state what that does to the file |
| `TsPoster.InFile` | ts-poster.py:41-49 | what `is_string_in_file` answers: some line of the file holds the value; `IsStringInFile` is proved to compute it |
| `TsPoster.AppendText` | ts-poster.py:52-54 | appending adds exactly `line + '\n'` to the chosen file's text and leaves the other file unchanged |
| `TsPoster.AppendValid` | ts-poster.py:52-54 | after an append both files still read as lines of text files |
| `TsPoster.AppendKeepsLines` | ts-poster.py:52-54 | for a newline-free line, when the file ends with a newline or is missing, existing lines are untouched and `line + '\n'` is the new last line |
| `TsPoster.AppendThenFound` | ts-poster.py:41-54 | after appending a value with no `'\r'` and no `'\n'` before its last character, `is_string_in_file` finds it in that file, whatever the file held before |
| `TsPoster.NewlineValueNotFoundAfterAppend` | ts-poster.py:44-47 | the value `A\nB`, which has a `'\n'` before its last character, is not found right after it was appended to an empty file |
| `TsPoster.ReleaseTypeRun` | ts-poster.py:60-70 | `get_release_type` prompts at most once per answer plus once more, only appends to the store, keeps it readable, and a call without a prompt changes nothing and returns a type |
| `TsPoster.KnownGroupIsNotPrompted` | ts-poster.py:61-64 | a known group is never prompted for and nothing is written; p2p wins over scene |
| `TsPoster.BadAnswerChangesNothing` | ts-poster.py:65-67 | for an unknown group, an invalid or missing answer raises after one prompt with both files unchanged |
| `TsPoster.OneAnswerSettlesGroup` | ts-poster.py:65-70 | for an unknown group with no `'\r'` and no `'\n'` before its last character, a valid answer means one prompt, an append to exactly the chosen file, and a `None` return |
| `TsPoster.ClassificationIsRemembered` | ts-poster.py:60-70 | once an unknown group with no `'\r'` and no `'\n'` before its last character is classified, every later call returns the chosen type without prompting or writing |
| `TsPoster.ClassificationStore.constructor` | ts-poster.py:41-45 | the store holds the lines of both files, none for a missing file |
| `TsPoster.ClassificationStore.IsStringInFile` | ts-poster.py:41-49 | the scan finds the value iff some line of the file holds it |
| `TsPoster.ClassificationStore.AppendNewLine` | ts-poster.py:52-54 | the store becomes the specified append of `line + '\n'` to the chosen file |
| `TsPoster.ClassificationStore.GetReleaseType` | ts-poster.py:60-70 | result, prompts and new store are those of `ReleaseTypeRun` |
| `TsPoster.Prepare` | ts-poster.py:93-102 | the steps before classification succeed iff torrent, NFO and media info exist and the NFO holds an id; a missing torrent fails first |
| `TsPoster.MissingImdbIdStopsEarly` | ts-poster.py:98-106 | an NFO without an id makes `main` fail at the id, before the release type is asked for |
| `TsPoster.ExitStatus` | ts-poster.py:113-127 | the process exits 1 only for a rejected upload; raised errors end with status 0 |
| `TsPoster.UploadRelease` | ts-poster.py:93-118 | a failure before classification leaves the store untouched with no prompt; otherwise the store follows `ReleaseTypeRun`, and the request goes to the key-bearing upload URL with the torrent and NFO file parts and the fields name, category, media info, id, `anonymous`, the NFO file and the returned type; status 200 is success |
| `FixNfo.IsNfoNameMatchesPattern` | fix-nfo.py:32-34 | the direct `.nfo` test agrees with `re.match(r'.*\.nfo$', name)`: a case-sensitive `.nfo` ending, no newline before it, and an optional final newline |
| `FixNfo.IsNfoName` | fix-nfo.py:32-34 | the direct test of a name against `.*\.nfo$`; `IsNfoNameMatchesPattern` proves it equal to the pattern's meaning |
| `FixNfo.FirstNfoIndex` | fix-nfo.py:33-36 | the position returned holds an NFO name and no earlier one does; none is returned when no name matches |
| `FixNfo.GetNfoName` | fix-nfo.py:31-36 | `None` iff no entry matches; otherwise the name of the first matching entry in list order |
| `FixNfo.FindNfoFile` | fix-nfo.py:39-43 | `None` iff no name in the listing matches; otherwise the first matching name in listing order |
| `FixNfo.FirstNfoIndexConcat` | fix-nfo.py:40-43 | the first match in a concatenation is in the first part if it has one, else the second part's first match |
| `FixNfo.FirstMatchWins` | fix-nfo.py:40-43 | an NFO earlier in the listing hides later ones; a listing prefix without NFO does not change the result |
| `FixNfo.GetNfoDetails` | fix-nfo.py:46-53 | the details are the answer's release and first NFO name and link; a status other than 200 fails first, then an empty `nfo` list, then an empty `nfolink` list, each with its own error |
| `FixNfo.NfoDetails` | fix-nfo.py:12-28 | the three values `NfoDetails` holds, read back unchanged by its accessors; `GetNfoDetails` states which answer fields fill them |
| `FixNfo.IsNfoMismatch` | fix-nfo.py:70-76 | fails iff the listing holds no NFO; otherwise true iff the found NFO equals the expected name |
| `FixNfo.MismatchMeansEqual` | fix-nfo.py:76 | with first NFO at position i, the result is whether that name equals the expected one |
| `PtpImage.ProxyFor` | ptp-image.py:44-47 | the proxy map is non-empty iff debug mode is on, and every proxy is the local one |
| `PtpImage.LoginRequest` | ptp-image.py:53-60 | the login POST: `<base>/login.php` with email, password and an empty `login` field, the service's proxies, and TLS checked iff not in debug mode; `DebugModeSettings` states it for every construction |
| `PtpImage.Authenticate` | ptp-image.py:62-66 | the login is accepted iff status is 200 and the body holds `/logout.php`; another status is an HTTP error, reported before the body is checked |
| `PtpImage.NewService` | ptp-image.py:42-50 | the login request is posted whatever the answer; the service exists iff the login is accepted, and then has base `https://ptpimg.me`, the given configuration, and a proxy iff debug mode is on |
| `PtpImage.DebugModeSettings` | ptp-image.py:45-60 | whatever the login response, the login request carries the credentials to `<base>/login.php`, uses a proxy iff debug mode is on and verifies TLS iff it is off |
| `PtpImage.ImageUrl` | ptp-image.py:68-77 | `__get_image_url`: `<base>/<code>.<ext>`; `ImageUrlRoundTrip` proves code and extension can be read back from it |
| `PtpImage.ImageUrlRoundTrip` | ptp-image.py:68-77 | the URL `<base>/<code>.<ext>` reads back as its code and extension |
| `PtpImage.ImageUrls` | ptp-image.py:104 | one URL per result element, each the element's image URL at the same position |
| `PtpImage.ImageUrlsInOrder` | ptp-image.py:104 | each URL reads back as the result element at its own position |
| `PtpImage.FieldNameInjective` | ptp-image.py:82 | different images get different `file-upload[i]` fields |
| `PtpImage.FieldName` | ptp-image.py:82 | the field `file-upload[<i>]` of the i-th image; `FieldNameInjective` proves distinct images get distinct fields |
| `PtpImage.ImagePart` | ptp-image.py:82 | the part of one image: its file name, the file opened from its path, and `image/png` |
| `PtpImage.MultipartFromImages` | ptp-image.py:79-84 | the form has exactly one entry per image; `file-upload[i]` maps to the i-th image's name and file as `image/png` |
| `PtpImage.Upload` | ptp-image.py:86-104 | a missing image fails with the first missing path and nothing is posted; otherwise the form, API key, proxy and TLS flag are posted; a status other than 200 fails, otherwise one URL per result element in order |

## Left out

- HTTP traffic is not modelled: the requests, sessions and cookies, timeouts, redirects,
  proxies and TLS. A response is only its status and body. The User-Agent header and the
  5-second timeout of the upload are not modelled either.
- JSON decoding is not modelled. The media-info file's text stands for its decoded value.
  The lookup service's answer, the upload result and the configuration file are given as
  decoded records. A malformed document is not modelled.
- How `requests` encodes the payload into form fields is not modelled. For example, it
  turns the `Category` member into its string and drops a `None` value.
- Argument parsing, logging, `print` and the traceback are left out. So is the `[img]`
  output of `ptp-image.py`'s `main`.
- The `*.png` glob of `ptp-image.py`'s `main` is left out. So are `ConfigurationService`,
  which loads the configuration from a JSON file, and `Configuration`'s plain accessors.
- `fix-nfo.py`'s `main`, `replace_nfo` and `download_nfo` are left out. They only delete,
  download and write files. `main` is also broken as written: it calls `isfile` on a
  directory, passes a file name where a directory is expected, and calls `replace_nfo`
  with two arguments instead of three.
- The lookup URL of `get_nfo_details` and its request are left out.
- File handles that are opened and never closed are left out. So are opening an existing
  file that cannot be read, and the difference between a missing file and a directory.
  A path is either in the file map or missing.
- The interactive `input()` is replaced by a sequence of answers.
- `\d` is modelled as the ASCII digits only. Python also accepts other Unicode decimal
  digits.
- Text-mode newline translation (`'\r\n'` and `'\r'` read as `'\n'`) is not modelled.
  The store files' texts are taken after that translation, but the model does not
  translate the text it appends either. So for a group holding a `'\r'`, `ReleaseTypeRun`
  finds the group again and makes one prompt, where the script prompts again.
- Text decoding is not modelled. `Files` maps a path to text that is already decoded. The
  script opens files in text mode with the locale's encoding (ts-poster.py:15, 44, 80), so
  a file the locale cannot decode, such as an NFO with CP437 art under a UTF-8 locale, makes
  `get_imdbid`, `read_file` or `is_string_in_file` raise `UnicodeDecodeError`. The
  model has no such file: a path holds text or is missing. It therefore cannot show that
  the script opens such an NFO in binary mode without error (ts-poster.py:95) and fails only
  at `get_imdbid` (:102), after `get_mediainfo` (:101). `GetImdbId` and `Prepare` state
  their results for files that decode.
- `Path.name` is given with each image rather than computed from the path.
- TsPoster.OneAnswerSettlesGroup: proved only for groups with no `'\r'` and no `'\n'` before
  their last character (`ReadsAsOneLine`). The script prompts again for a group with a
  `'\n'` earlier on, and for one with a `'\r'` anywhere, because text mode reads a `'\r'` back
  as a line break.
- TsPoster.ClassificationIsRemembered: proved only for groups that satisfy `ReadsAsOneLine`,
  for the same reason.
- TsPoster.AppendThenFound: proved only for values that satisfy `ReadsAsOneLine`. Any other
  value is read back split across lines.
