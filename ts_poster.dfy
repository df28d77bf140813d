/** The release-classification and metadata-extraction logic of `ts-poster.py`: the IMDB id
    search in the NFO text, the category and group derived from the release directory name,
    the two-file classification store with its interactive fallback, and the order in which
    `main` builds the upload payload.

    The files the script reads are given as a map from path to text; the store files are
    held by a `ClassificationStore` object; the operator's answers to the prompt are given
    as the sequence of lines `input()` would return, in order. */
module TsPoster {
  import opened Results
  import opened PyText

  /** The exceptions the script can raise, by cause. */
  datatype Error =
    | FileNotFound(path: string)         // `open` of a missing file, or `read_file`'s check
    | ImdbIdNotFound(nfoPath: string)    // `get_imdbid` found no id
    | UnknownCategory(dirname: string)   // `get_category` found no marker
    | UnknownUserInput(answer: string)   // the operator typed neither `p2p` nor `scene`
    | EndOfInput                         // `input()` at the end of standard input

  /** The text of every regular file the script can open, by path. */
  type Files = map<string, string>

  // ---------------------------------------------------------------------------
  // Enumerations
  // ---------------------------------------------------------------------------

  datatype Category = Movie2160 | Movie1080

  /** The tracker's numeric category code of each member. */
  function CategoryCode(c: Category): (code: int)
    ensures code == 42 <==> c == Movie2160
    ensures code == 9 <==> c == Movie1080
  {
    match c
    case Movie2160 => 42
    case Movie1080 => 9
  }

  datatype ReleaseType = P2P | Scene

  /** The string value of each member of the `StrEnum`. */
  function Value(t: ReleaseType): (v: string)
    ensures v == "p2p" <==> t == P2P
    ensures v == "scene" <==> t == Scene
  {
    match t
    case P2P => "p2p"
    case Scene => "scene"
  }

  /** The store file an operator answer selects: none unless the answer is `p2p` or `scene`;
      `p2p.txt` for `p2p` and `scene.txt` otherwise. */
  function AnswerFile(answer: string): (file: Option<ReleaseType>)
    ensures file.Some? <==> answer == Value(P2P) || answer == Value(Scene)
    ensures file.Some? ==> Value(file.value) == answer
  {
    if answer != "p2p" && answer != "scene" then None
    else Some(if answer == "p2p" then P2P else Scene)
  }

  // ---------------------------------------------------------------------------
  // get_imdbid
  // ---------------------------------------------------------------------------

  /** The pattern `tt\d{7,8}` can match at offset `i` of `s`: `tt` and seven digits follow. */
  predicate ImdbMatchAt(s: string, i: nat)
  {
    i + 9 <= |s| && s[i] == 't' && s[i + 1] == 't' && AllDigits(s[i + 2..i + 9])
  }

  /** The length of the match at `i`: the `{7,8}` repetition is greedy and takes an
      eighth digit whenever one follows. */
  function ImdbMatchLength(s: string, i: nat): (n: nat)
    requires ImdbMatchAt(s, i)
    ensures n == 9 || n == 10
    ensures i + n <= |s|
    ensures AllDigits(s[i + 2..i + n])
    ensures n == 9 ==> i + 9 == |s| || !IsDigit(s[i + 9])
  {
    if i + 10 <= |s| && IsDigit(s[i + 9]) then
      assert s[i + 2..i + 10] == s[i + 2..i + 9] + [s[i + 9]];
      10
    else 9
  }

  /** What an IMDB id found by the script looks like. */
  predicate IsImdbId(id: string)
  {
    (|id| == 9 || |id| == 10) && id[..2] == "tt" && AllDigits(id[2..])
  }

  /** The leftmost offset at or after `from` where the pattern matches. */
  function FirstImdbMatch(s: string, from: nat): (r: Option<nat>)
    requires from <= |s|
    ensures r.Some? ==> from <= r.value && ImdbMatchAt(s, r.value)
    ensures forall j: nat :: from <= j && (r.None? || j < r.value) ==> !ImdbMatchAt(s, j)
    decreases |s| - from
  {
    if from + 9 > |s| then None
    else if ImdbMatchAt(s, from) then Some(from)
    else FirstImdbMatch(s, from + 1)
  }

  /** `re.search(r'tt\d{7,8}', content).group()`: the text of the leftmost match. */
  function SearchImdbId(content: string): (r: Option<string>)
    ensures r.Some? <==> exists i: nat :: ImdbMatchAt(content, i)
    ensures r.Some? ==>
      exists i: nat :: ImdbMatchAt(content, i) &&
        (forall j: nat :: j < i ==> !ImdbMatchAt(content, j)) &&
        r.value == content[i..i + ImdbMatchLength(content, i)]
    ensures r.Some? ==> IsImdbId(r.value) && Contains(content, r.value)
  {
    match FirstImdbMatch(content, 0)
    case None => None
    case Some(i) =>
      var id := content[i..i + ImdbMatchLength(content, i)];
      assert OccursAt(content, id, i);
      assert id[..2] == "tt";
      assert id[2..] == content[i + 2..i + ImdbMatchLength(content, i)];
      Some(id)
  }

  /** `get_imdbid(nfo_path)`: open the NFO and return the leftmost id in its text; a missing
      file raises from `open`, a text without an id raises `ValueError`. */
  function GetImdbId(nfoPath: string, files: Files): (r: Result<string, Error>)
    ensures nfoPath !in files ==> r == Err(FileNotFound(nfoPath))
    ensures nfoPath in files ==>
      (r.Ok? <==> exists i: nat :: ImdbMatchAt(files[nfoPath], i))
    ensures r.Ok? ==> IsImdbId(r.value) && Contains(files[nfoPath], r.value)
    ensures r.Err? && nfoPath in files ==> r.error == ImdbIdNotFound(nfoPath)
  {
    if nfoPath !in files then Err(FileNotFound(nfoPath))
    else
      match SearchImdbId(files[nfoPath])
      case Some(id) => Ok(id)
      case None => Err(ImdbIdNotFound(nfoPath))
  }

  /** An id inside surrounding text is found; seven digits followed by a non-digit give a
      nine-character id. */
  lemma ImdbIdInText()
    ensures SearchImdbId("imdb tt1234567/") == Some("tt1234567")
  {
    var s := "imdb tt1234567/";
    assert ImdbMatchAt(s, 5);
    assert forall j :: 0 <= j < 5 ==> s[j] != 't';
    assert FirstImdbMatch(s, 0) == Some(5);
    assert !IsDigit(s[14]);
    assert s[5..14] == "tt1234567";
  }

  /** With nine digits after `tt`, the greedy repetition stops at eight. */
  lemma ImdbIdTakesEightDigits()
    ensures SearchImdbId("tt123456789") == Some("tt12345678")
  {
    var s := "tt123456789";
    assert ImdbMatchAt(s, 0);
    assert FirstImdbMatch(s, 0) == Some(0);
    assert IsDigit(s[9]);
    assert s[0..10] == "tt12345678";
  }

  /** Six digits are not enough: no id is found. */
  lemma ImdbIdNeedsSevenDigits()
    ensures SearchImdbId("tt123456 tt") == None
  {
    var s := "tt123456 tt";
    forall j: nat ensures !ImdbMatchAt(s, j) {
      if j + 9 <= |s| {
        assert !IsDigit(s[8]);
        assert s[j] != 't' || s[j + 1] != 't' || !IsDigit(s[8]);
      }
    }
  }

  // ---------------------------------------------------------------------------
  // get_category and get_group
  // ---------------------------------------------------------------------------

  /** Python truthiness of a string. */
  predicate Truthy(s: string)
  {
    s != ""
  }

  /** `get_category(dirname)` as written. Each condition parses as
      `'2160p' or ('COMPLETE.UHD.BLURAY' in dirname)`, and a non-empty literal is truthy,
      so the first branch is always taken and neither `UnknownCategory` nor `Movie1080`
      can be returned, whatever the name holds. */
  function GetCategory(dirname: string): (r: Result<Category, Error>)
    ensures r == Ok(Movie2160) && CategoryCode(r.value) == 42
  {
    if Truthy("2160p") || Contains(dirname, "COMPLETE.UHD.BLURAY") then Ok(Movie2160)
    else if Truthy("1080p") || Contains(dirname, "COMPLETE.BLURAY") then Ok(Movie1080)
    else Err(UnknownCategory(dirname))
  }

  /** `get_group(dirname)`: `dirname.split('-')[-1]`, the dash-free tail of the name after
      its last `-`, or the whole name when it holds no `-`. */
  function GetGroup(dirname: string): (group: string)
    ensures '-' !in group
    ensures |group| <= |dirname| && dirname[|dirname| - |group|..] == group
    ensures |group| == |dirname| || dirname[|dirname| - |group| - 1] == '-'
    ensures '-' !in dirname ==> group == dirname
  {
    LastPieceIsSuffix(dirname, '-');
    var parts := Split(dirname, '-');
    parts[|parts| - 1]
  }

  /** The group is exactly the text after the last `-`: for the release
      `Movie.Name.2023.2160p.UHD.BLURAY-GROUPX` it is `GROUPX`. */
  lemma GroupIsTextAfterLastDash(prefix: string, word: string)
    requires '-' !in word
    ensures GetGroup(prefix + "-" + word) == word
  {
    var name := prefix + "-" + word;
    var g := GetGroup(name);
    assert name[|name| - |word| - 1] == '-';
    assert name[|name| - |word|..] == word;
  }

  // ---------------------------------------------------------------------------
  // The classification store: p2p.txt and scene.txt
  // ---------------------------------------------------------------------------

  /** The two store files, each as the lines iterating over it yields (its '\n' kept);
      a missing file reads as no lines. */
  datatype StoreState = StoreState(p2p: seq<string>, scene: seq<string>)
  {
    function Lines(file: ReleaseType): seq<string>
    {
      match file
      case P2P => p2p
      case Scene => scene
    }

    /** The text of the file. */
    function Text(file: ReleaseType): string
    {
      Concat(Lines(file))
    }

    /** The store after `append_new_line(<file>, line)`: the file's text grows by
        `line + '\n'` and is read back as lines. */
    function Append(file: ReleaseType, line: string): StoreState
    {
      var lines := SplitLines(Text(file) + line + "\n");
      match file
      case P2P => this.(p2p := lines)
      case Scene => this.(scene := lines)
    }

    /** Both files read as lines of a text file. */
    ghost predicate Valid()
    {
      WellFormedLines(p2p) && WellFormedLines(scene)
    }
  }

  /** `is_string_in_file(<file>, value)`: some line of the file holds `value`. A line is
      searched with its '\n', and `value` need not be the whole line. */
  predicate InFile(s: StoreState, file: ReleaseType, value: string)
  {
    exists k :: 0 <= k < |s.Lines(file)| && Contains(s.Lines(file)[k], value)
  }

  /** Appending adds exactly `line + '\n'` to the text of that file and leaves the other file
      alone. */
  lemma AppendText(s: StoreState, file: ReleaseType, line: string)
    ensures s.Append(file, line).Text(file) == s.Text(file) + line + "\n"
    ensures forall f :: f != file ==> s.Append(file, line).Lines(f) == s.Lines(f)
  {
    ConcatSplitLines(s.Text(file) + line + "\n");
  }

  /** Appending keeps the store readable as lines. */
  lemma AppendValid(s: StoreState, file: ReleaseType, line: string)
    ensures s.Valid() ==> s.Append(file, line).Valid()
  {
    SplitLinesWellFormed(s.Text(file) + line + "\n");
  }

  /** When the file ends with a newline (or is missing) and `line` holds none, appending
      leaves the existing lines untouched and adds `line + '\n'` as a new last line. */
  lemma AppendKeepsLines(s: StoreState, file: ReleaseType, line: string)
    requires s.Valid()
    requires EndsLine(s.Text(file))
    requires '\n' !in line
    ensures s.Append(file, line).Lines(file) == s.Lines(file) + [line + "\n"]
  {
    var t := s.Text(file);
    assert t + line + "\n" == t + (line + "\n");
    SplitLinesAppend(t, line + "\n");
    SplitLinesConcat(s.Lines(file));
    LineLengthOfLine(line + "\n", "");
    assert (line + "\n") + "" == line + "\n";
    assert (line + "\n")[..|line|] == line;
    assert (line + "\n")[|line| + 1..] == "";
  }

  /** A value that text mode reads back within one line: no '\r', and a '\n' only as its last
      character. */
  predicate ReadsAsOneLine(value: string)
  {
    '\r' !in value && forall i :: 0 <= i < |value| - 1 ==> value[i] != '\n'
  }

  /** After a value that reads as one line has been appended to a file, `is_string_in_file`
      finds it there, whatever the file held before. */
  lemma AppendThenFound(s: StoreState, file: ReleaseType, value: string)
    requires ReadsAsOneLine(value)
    ensures InFile(s.Append(file, value), file, value)
  {
    var lines := s.Append(file, value).Lines(file);
    assert lines == SplitLines(s.Text(file) + value + "\n") by {
      match file
      case P2P =>
      case Scene =>
    }
    var k := LineHoldingValue(s.Text(file), value);
  }

  /** The position of a line holding a value that reads as one line, once the value and a
      '\n' are appended to any text. */
  lemma LineHoldingValue(a: string, value: string) returns (k: nat)
    requires ReadsAsOneLine(value)
    ensures var lines := SplitLines(a + value + "\n");
            k < |lines| && Contains(lines[k], value)
  {
    var lines := SplitLines(a + value + "\n");
    if '\n' !in value {
      LastLineHoldsWord(a, value);
      k := |lines| - 1;
      ContainsPrefixOf(lines[k], value, "\n");
    } else {
      var w := value[..|value| - 1];
      assert value == w + "\n" && '\n' !in w by {
        assert value[|value| - 1] == '\n';
        forall i | 0 <= i < |w|
          ensures w[i] != '\n'
        {
          assert w[i] == value[i];
        }
      }
      assert a + value + "\n" == a + w + "\n" + "\n" by {
        Associative(a, w, "\n");
      }
      AppendEndedWordThenFound(a, w);
      k := |lines| - 2;
    }
  }

  /** A newline-free word appended with its own '\n' lands, with that '\n', at the end of the
      line before the empty line the append leaves behind. */
  lemma AppendEndedWordThenFound(a: string, w: string)
    requires '\n' !in w
    ensures var lines := SplitLines(a + w + "\n" + "\n");
            |lines| >= 2 && Contains(lines[|lines| - 2], w + "\n")
  {
    var t0 := a + w + "\n";
    var lines0 := SplitLines(t0);
    LastLineHoldsWord(a, w);
    SplitLinesAppend(t0, "\n");
    assert SplitLines("\n") == ["\n"] by {
      LineLengthOfLine("\n", "");
      assert "\n" + "" == "\n";
    }
    assert SplitLines(t0 + "\n")[|lines0| - 1] == lines0[|lines0| - 1];
  }

  /** A value holding a newline is written as two lines and is then not found: the lookup
      searches one line at a time. */
  lemma NewlineValueNotFoundAfterAppend()
    ensures !InFile(StoreState([], []).Append(P2P, "A\nB"), P2P, "A\nB")
  {
    var lines := StoreState([], []).Append(P2P, "A\nB").p2p;
    var t := "A\nB\n";
    assert Concat([]) == "";
    assert "" + "A\nB" + "\n" == t;
    assert LineLength(t) == 2;
    assert t[..2] == "A\n" && t[2..] == "B\n";
    assert LineLength("B\n") == 2;
    assert "B\n"[..2] == "B\n" && "B\n"[2..] == "";
    assert SplitLines("B\n") == ["B\n"] + SplitLines("");
    assert SplitLines(t) == ["A\n"] + SplitLines("B\n");
    assert lines == ["A\n", "B\n"];
    assert !Contains(lines[0], "A\nB") && !Contains(lines[1], "A\nB");
  }

  // ---------------------------------------------------------------------------
  // get_release_type
  // ---------------------------------------------------------------------------

  /** The result of one `get_release_type(group)` call: what it returns or raises, the
      store afterwards and how many times `input()` was called. */
  datatype Run = Run(result: Result<Option<ReleaseType>, Error>, store: StoreState, prompts: nat)

  /** Each file of `s'` starts with the text that file had in `s`: the store only grows. */
  ghost predicate Grows(s: StoreState, s': StoreState)
  {
    forall f: ReleaseType :: s.Text(f) <= s'.Text(f)
  }

  /** `get_release_type(group)` as written. A group found in `p2p.txt` is `P2P` and
      `scene.txt` is not searched; one found in `scene.txt` is `SCENE`; otherwise one answer
      is read, anything but `p2p` or `scene` raises, and the group is appended to the chosen
      file before the function calls itself again, discards what that call returns and
      returns `None`. */
  function ReleaseTypeRun(s: StoreState, group: string, answers: seq<string>): (run: Run)
    ensures run.prompts <= |answers| + 1
    ensures Grows(s, run.store)
    ensures s.Valid() ==> run.store.Valid()
    ensures run.prompts == 0 ==> run.store == s && run.result.Ok? && run.result.value.Some?
    decreases |answers|
  {
    if InFile(s, P2P, group) then Run(Ok(Some(P2P)), s, 0)
    else if InFile(s, Scene, group) then Run(Ok(Some(Scene)), s, 0)
    else if answers == [] then Run(Err(EndOfInput), s, 1)
    else
      match AnswerFile(answers[0])
      case None => Run(Err(UnknownUserInput(answers[0])), s, 1)
      case Some(file) =>
        var s1 := s.Append(file, group);
        AppendText(s, file, group);
        AppendValid(s, file, group);
        var inner := ReleaseTypeRun(s1, group, answers[1..]);
        Run(if inner.result.Err? then inner.result else Ok(None), inner.store, inner.prompts + 1)
  }

  /** A group already in the store is never prompted for and nothing is written; a group in
      `p2p.txt` is `P2P` even when `scene.txt` holds it too. */
  lemma KnownGroupIsNotPrompted(s: StoreState, group: string, answers: seq<string>)
    requires InFile(s, P2P, group) || InFile(s, Scene, group)
    ensures ReleaseTypeRun(s, group, answers) ==
      Run(Ok(Some(if InFile(s, P2P, group) then P2P else Scene)), s, 0)
  {
  }

  /** For an unknown group, an answer other than `p2p` or `scene` raises after one prompt and
      leaves both files unchanged; no answer at all raises at end of input. */
  lemma BadAnswerChangesNothing(s: StoreState, group: string, answers: seq<string>)
    requires !InFile(s, P2P, group) && !InFile(s, Scene, group)
    requires answers == [] || AnswerFile(answers[0]).None?
    ensures var run := ReleaseTypeRun(s, group, answers);
            run.result.Err? && run.store == s && run.prompts == 1
  {
  }

  /** For an unknown group that reads as one line, a valid answer is asked for once: the group is
      appended to exactly the chosen file, the recursive call finds it without prompting,
      and the call returns `None`. */
  lemma {:induction false} OneAnswerSettlesGroup(s: StoreState, group: string, answers: seq<string>)
    requires !InFile(s, P2P, group) && !InFile(s, Scene, group)
    requires ReadsAsOneLine(group)
    requires |answers| >= 1 && AnswerFile(answers[0]).Some?
    ensures var file := AnswerFile(answers[0]).value;
            ReleaseTypeRun(s, group, answers) == Run(Ok(None), s.Append(file, group), 1)
  {
    var file := AnswerFile(answers[0]).value;
    var s1 := s.Append(file, group);
    AppendThenFound(s, file, group);
    AppendText(s, file, group);
    if file == Scene {
      assert s1.Lines(P2P) == s.Lines(P2P);
      assert !InFile(s1, P2P, group);
    }
  }

  /** The answer is remembered: once an unknown group that reads as one line has been classified, every
      later call returns the chosen type without prompting and without writing. */
  lemma {:induction false} ClassificationIsRemembered(s: StoreState, group: string, answers: seq<string>, later: seq<string>)
    requires !InFile(s, P2P, group) && !InFile(s, Scene, group)
    requires ReadsAsOneLine(group)
    requires |answers| >= 1 && AnswerFile(answers[0]).Some?
    ensures var file := AnswerFile(answers[0]).value;
            var s1 := ReleaseTypeRun(s, group, answers).store;
            ReleaseTypeRun(s1, group, later) == Run(Ok(Some(file)), s1, 0)
  {
    var file := AnswerFile(answers[0]).value;
    OneAnswerSettlesGroup(s, group, answers);
    var s1 := s.Append(file, group);
    AppendThenFound(s, file, group);
    AppendText(s, file, group);
    if file == Scene {
      assert s1.Lines(P2P) == s.Lines(P2P);
    }
  }

  /** The store object: the lines of `p2p.txt` and `scene.txt`, updated in place when the
      operator classifies a new group. */
  class ClassificationStore {
    var p2p: seq<string>
    var scene: seq<string>

    function State(): StoreState
      reads this
    {
      StoreState(p2p, scene)
    }

    ghost predicate Valid()
      reads this
    {
      State().Valid()
    }

    /** The store over files with the given texts (the empty text for a missing file). */
    constructor (p2pText: string, sceneText: string)
      ensures Valid()
      ensures State() == StoreState(SplitLines(p2pText), SplitLines(sceneText))
    {
      p2p := SplitLines(p2pText);
      scene := SplitLines(sceneText);
      SplitLinesWellFormed(p2pText);
      SplitLinesWellFormed(sceneText);
    }

    /** `is_string_in_file`: scan the lines in order and stop at the first that holds
        `value`. */
    method IsStringInFile(file: ReleaseType, value: string) returns (found: bool)
      ensures found == InFile(State(), file, value)
    {
      var lines := if file == P2P then p2p else scene;
      assert lines == State().Lines(file);
      var k := 0;
      while k < |lines|
        invariant 0 <= k <= |lines|
        invariant forall j :: 0 <= j < k ==> !Contains(lines[j], value)
      {
        if Contains(lines[k], value) {
          return true;
        }
        k := k + 1;
      }
      return false;
    }

    /** `append_new_line`: open the file for appending (creating it when missing) and write
        `line + '\n'`. */
    method AppendNewLine(file: ReleaseType, line: string)
      requires Valid()
      modifies this
      ensures Valid()
      ensures State() == old(State()).Append(file, line)
    {
      var text := Concat(if file == P2P then p2p else scene);
      var lines := SplitLines(text + line + "\n");
      if file == P2P {
        p2p := lines;
      } else {
        scene := lines;
      }
      AppendValid(old(State()), file, line);
    }

    /** `get_release_type(group)` with the operator's successive answers; returns what the
        call returns or raises and how many times it called `input()`. */
    method GetReleaseType(group: string, answers: seq<string>)
      returns (result: Result<Option<ReleaseType>, Error>, prompts: nat)
      requires Valid()
      modifies this
      ensures Valid()
      ensures Run(result, State(), prompts) == ReleaseTypeRun(old(State()), group, answers)
      decreases |answers|
    {
      var inP2P := IsStringInFile(P2P, group);
      if inP2P {
        return Ok(Some(P2P)), 0;
      }
      var inScene := IsStringInFile(Scene, group);
      if inScene {
        return Ok(Some(Scene)), 0;
      }
      if answers == [] {
        return Err(EndOfInput), 1;
      }
      var choice := AnswerFile(answers[0]);
      if choice.None? {
        return Err(UnknownUserInput(answers[0])), 1;
      }
      AppendNewLine(choice.value, group);
      var inner, innerPrompts := GetReleaseType(group, answers[1..]);
      if inner.Err? {
        return inner, innerPrompts + 1;
      }
      return Ok(None), innerPrompts + 1;
    }
  }

  // ---------------------------------------------------------------------------
  // main
  // ---------------------------------------------------------------------------

  /** The command-line arguments `main` uses. */
  datatype Args = Args(torrent: string, nfo: string, mediainfo: string, dirname: string, key: string)

  /** The form fields of the upload request, as `main` builds them; a file opened for
      reading is named by its path. */
  datatype Payload = Payload(
    name: string,
    category: Category,
    mediainfo: string,
    imdbid: string,
    anonymous: string,
    nfo: string,
    releaseType: Option<ReleaseType>)

  /** The upload request: the URL carrying the API key, the file parts (each file opened for
      reading, named by its path) and the form fields. */
  datatype Request = Request(url: string, files: map<string, string>, data: Payload)

  /** The tracker's upload address for an API key. */
  function UploadUrl(key: string): string
  {
    "https://torrent-syndikat.org/" + key + "/v1/upload.php"
  }

  /** The fields `main` computes before it asks for the release type. */
  datatype Prepared = Prepared(category: Category, mediainfo: string, imdbid: string)

  /** The status and body of the upload response. */
  datatype Response = Response(status: int, body: string)

  /** How `main` ends: the upload was accepted, the tracker answered with another status,
      or an exception escaped. */
  datatype MainOutcome =
    | Uploaded(request: Request, body: string)
    | Rejected(request: Request, status: int)
    | Raised(error: Error)

  /** The steps of `main` before `get_release_type`, in evaluation order: open the torrent
      and the NFO, then the payload's category, media info (read with `read_file`) and IMDB
      id. The first one that fails decides the error. */
  function Prepare(files: Files, args: Args): (r: Result<Prepared, Error>)
    ensures r.Ok? <==>
      args.torrent in files && args.nfo in files && args.mediainfo in files &&
      GetImdbId(args.nfo, files).Ok?
    ensures r.Ok? ==>
      r.value == Prepared(Movie2160, files[args.mediainfo], GetImdbId(args.nfo, files).value)
    ensures args.torrent !in files ==> r == Err(FileNotFound(args.torrent))
  {
    if args.torrent !in files then Err(FileNotFound(args.torrent))
    else if args.nfo !in files then Err(FileNotFound(args.nfo))
    else
      match GetCategory(args.dirname)
      case Err(e) => Err(e)
      case Ok(category) =>
        if args.mediainfo !in files then Err(FileNotFound(args.mediainfo))
        else
          match GetImdbId(args.nfo, files)
          case Err(e) => Err(e)
          case Ok(id) => Ok(Prepared(category, files[args.mediainfo], id))
  }

  /** An NFO without an IMDB id stops `main` before the release type is asked for. */
  lemma MissingImdbIdStopsEarly(files: Files, args: Args)
    requires args.torrent in files && args.nfo in files && args.mediainfo in files
    requires forall i: nat :: !ImdbMatchAt(files[args.nfo], i)
    ensures Prepare(files, args) == Err(ImdbIdNotFound(args.nfo))
  {
  }

  /** The exit status of the process: `sys.exit(1)` on a rejected upload; an exception is
      caught by the handler around `main`, logged, and the process ends normally. */
  function ExitStatus(outcome: MainOutcome): (code: int)
    ensures code == 0 || code == 1
    ensures code == 1 <==> outcome.Rejected?
  {
    match outcome
    case Rejected(_, _) => 1
    case _ => 0
  }

  /** `main` from the files' contents on: prepare the payload, classify the group (which may
      prompt and write to the store), then post. Nothing is written to the store and nothing
      is asked unless every earlier step succeeded. */
  method UploadRelease(store: ClassificationStore, files: Files, args: Args, answers: seq<string>, response: Response)
    returns (outcome: MainOutcome, prompts: nat)
    requires store.Valid()
    modifies store
    ensures store.Valid()
    ensures Prepare(files, args).Err? ==>
      outcome == Raised(Prepare(files, args).error) && prompts == 0 &&
      store.State() == old(store.State())
    ensures Prepare(files, args).Ok? ==>
      var p := Prepare(files, args).value;
      var run := ReleaseTypeRun(old(store.State()), GetGroup(args.dirname), answers);
      store.State() == run.store && prompts == run.prompts &&
      outcome == (
        if run.result.Err? then Raised(run.result.error)
        else
          var request := Request(
            UploadUrl(args.key),
            map["torrent" := args.torrent, "nfo" := args.nfo],
            Payload(args.dirname, p.category, p.mediainfo, p.imdbid, "true", args.nfo, run.result.value));
          if response.status == 200 then Uploaded(request, response.body)
          else Rejected(request, response.status))
  {
    var prepared := Prepare(files, args);
    if prepared.Err? {
      return Raised(prepared.error), 0;
    }
    var group := GetGroup(args.dirname);
    var releaseType;
    releaseType, prompts := store.GetReleaseType(group, answers);
    if releaseType.Err? {
      return Raised(releaseType.error), prompts;
    }
    var p := prepared.value;
    var files := map["torrent" := args.torrent, "nfo" := args.nfo];
    var payload := Payload(args.dirname, p.category, p.mediainfo, p.imdbid, "true", args.nfo, releaseType.value);
    var request := Request(UploadUrl(args.key), files, payload);
    if response.status == 200 {
      outcome := Uploaded(request, response.body);
    } else {
      outcome := Rejected(request, response.status);
    }
  }
}
