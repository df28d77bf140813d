/** The NFO-name logic of `fix-nfo.py`: picking the first `*.nfo` name from a listing, the
    details taken from the NFO lookup service's answer, and the check that compares the NFO
    found in a release directory with the expected name.

    A directory listing is the sequence of names `os.listdir` returns, in its order; the
    lookup service's answer is given already decoded. */
module FixNfo {
  import opened Results
  import opened PyText

  /** The ways these helpers end the run: `sys.exit(1)` after a failed lookup or when no NFO
      is found, or an `IndexError` on an empty list in the lookup answer. */
  datatype Error =
    | RequestFailed(status: int)
    | EmptyList(key: string)
    | NoNfoFile(dirname: string)

  /** `NfoDetails`: the release name, the NFO file name and its download URL, with read-only
      accessors that return them unchanged. */
  datatype NfoDetails = NfoDetails(dirname: string, nfoName: string, nfoUrl: string)

  // ---------------------------------------------------------------------------
  // The pattern `.*\.nfo$`
  // ---------------------------------------------------------------------------

  /** No character of `s` is a newline. */
  predicate NoNewline(s: string)
  {
    forall i :: 0 <= i < |s| ==> s[i] != '\n'
  }

  /** `re.match(r'.*\.nfo$', name)` read off the pattern: from the start of the name, `.*`
      takes `k` characters none of which is a newline, `\.nfo` the next four, and `$` holds
      at the end of the name or before a final newline. */
  ghost predicate PatternMatches(name: string)
  {
    exists k: nat :: MatchesWithPrefix(name, k)
  }

  /** The pattern matches with `.*` taking the first `k` characters. */
  ghost predicate MatchesWithPrefix(name: string, k: nat)
  {
    k + 4 <= |name| && NoNewline(name[..k]) && name[k..k + 4] == ".nfo" &&
    (k + 4 == |name| || (k + 5 == |name| && name[k + 4] == '\n'))
  }

  /** The name without one final newline, if it has one. */
  function Chomp(name: string): string
  {
    if |name| > 0 && name[|name| - 1] == '\n' then name[..|name| - 1] else name
  }

  /** The same test computed directly: without one final newline, the name holds no newline
      and ends with `.nfo`, in lower case. */
  predicate IsNfoName(name: string)
  {
    var body := Chomp(name);
    |body| >= 4 && NoNewline(body) && body[|body| - 4..] == ".nfo"
  }

  /** The direct test agrees with the pattern on every name. */
  lemma IsNfoNameMatchesPattern(name: string)
    ensures IsNfoName(name) <==> PatternMatches(name)
  {
    if IsNfoName(name) {
      NfoNameMatches(name);
    }
    if PatternMatches(name) {
      var k: nat :| MatchesWithPrefix(name, k);
      MatchImpliesNfoName(name, k);
    }
  }

  lemma NfoNameMatches(name: string)
    requires IsNfoName(name)
    ensures MatchesWithPrefix(name, |Chomp(name)| - 4)
  {
    var body := Chomp(name);
    var k := |body| - 4;
    assert name[..k] == body[..k];
    assert name[k..k + 4] == body[k..];
  }

  lemma MatchImpliesNfoName(name: string, k: nat)
    requires MatchesWithPrefix(name, k)
    ensures IsNfoName(name)
  {
    var body := Chomp(name);
    assert name[k + 3] == 'o';
    assert body == name[..k + 4];
    assert body[..k] == name[..k];
    assert body[k..] == ".nfo";
  }

  // ---------------------------------------------------------------------------
  // get_nfo_name and find_nfo_file
  // ---------------------------------------------------------------------------

  /** Which of `names` match the pattern, position by position. */
  function NfoFlags(names: seq<string>): (flags: seq<bool>)
    ensures |flags| == |names|
    decreases |names|
  {
    if names == [] then [] else [IsNfoName(names[0])] + NfoFlags(names[1..])
  }

  /** Each flag is the pattern test of the name at its position. */
  lemma {:induction false} NfoFlagsIndex(names: seq<string>)
    ensures forall i :: 0 <= i < |names| ==> NfoFlags(names)[i] == IsNfoName(names[i])
    decreases |names|
  {
    if names != [] {
      NfoFlagsIndex(names[1..]);
      forall i | 1 <= i < |names|
        ensures NfoFlags(names)[i] == IsNfoName(names[i])
      {
        assert names[1..][i - 1] == names[i];
      }
    }
  }

  /** The flags of a concatenation are the flags of its parts, concatenated. */
  lemma {:induction false} NfoFlagsConcat(a: seq<string>, b: seq<string>)
    ensures NfoFlags(a + b) == NfoFlags(a) + NfoFlags(b)
    decreases |a|
  {
    if a == [] {
      assert a + b == b;
    } else {
      assert (a + b)[0] == a[0];
      assert (a + b)[1..] == a[1..] + b;
      NfoFlagsConcat(a[1..], b);
    }
  }

  /** The position of the first set flag: the loop's early return. */
  function FirstSet(flags: seq<bool>): (r: Option<nat>)
    ensures r.Some? ==> r.value < |flags| && flags[r.value]
    ensures forall j :: 0 <= j < |flags| && (r.None? || j < r.value) ==> !flags[j]
    decreases |flags|
  {
    if flags == [] then None
    else if flags[0] then Some(0)
    else
      match FirstSet(flags[1..])
      case None => None
      case Some(i) => Some(i + 1)
  }

  /** The first set flag of a concatenation is in the first part if that has one, and
      otherwise it is the second part's, shifted. */
  lemma {:induction false} FirstSetConcat(x: seq<bool>, y: seq<bool>)
    ensures FirstSet(x + y) ==
      match FirstSet(x)
      case Some(i) => Some(i)
      case None => match FirstSet(y) case Some(i) => Some(|x| + i) case None => None
    decreases |x|
  {
    if x == [] {
      assert x + y == y;
    } else {
      assert (x + y)[0] == x[0];
      if !x[0] {
        assert (x + y)[1..] == x[1..] + y;
        FirstSetConcat(x[1..], y);
      }
    }
  }

  /** The position of the first NFO name in `names`. */
  function FirstNfoIndex(names: seq<string>): (r: Option<nat>)
    ensures r.Some? ==> r.value < |names| && IsNfoName(names[r.value])
    ensures forall j :: 0 <= j < |names| && (r.None? || j < r.value) ==> !IsNfoName(names[j])
  {
    NfoFlagsIndex(names);
    FirstSet(NfoFlags(names))
  }

  /** An entry of the `files` list in the lookup service's answer. */
  datatype ListedFile = ListedFile(name: string)

  /** `get_nfo_name(files)`: the name of the first entry, in list order, that matches the
      pattern, or `None`. */
  function GetNfoName(files: seq<ListedFile>): (r: Option<string>)
    ensures r.None? <==> forall i :: 0 <= i < |files| ==> !IsNfoName(files[i].name)
    ensures r.Some? ==>
      exists i :: 0 <= i < |files| && IsNfoName(files[i].name) && r.value == files[i].name &&
        forall j :: 0 <= j < i ==> !IsNfoName(files[j].name)
  {
    var names := seq(|files|, i requires 0 <= i < |files| => files[i].name);
    assert forall i :: 0 <= i < |files| ==> names[i] == files[i].name;
    match FirstNfoIndex(names)
    case None => None
    case Some(i) => Some(names[i])
  }

  /** `find_nfo_file(directory)` over the directory's listing: the first matching name in
      listing order, or `None`. */
  function FindNfoFile(listing: seq<string>): (r: Option<string>)
    ensures r.None? <==> forall i :: 0 <= i < |listing| ==> !IsNfoName(listing[i])
    ensures r.Some? ==>
      exists i :: 0 <= i < |listing| && IsNfoName(listing[i]) && r.value == listing[i] &&
        forall j :: 0 <= j < i ==> !IsNfoName(listing[j])
  {
    match FirstNfoIndex(listing)
    case None => None
    case Some(i) => Some(listing[i])
  }

  /** The first NFO of a concatenation is the first NFO of its first part, or else the first
      NFO of its second part, shifted. */
  lemma FirstNfoIndexConcat(a: seq<string>, b: seq<string>)
    ensures FirstNfoIndex(a + b) ==
      match FirstNfoIndex(a)
      case Some(i) => Some(i)
      case None => match FirstNfoIndex(b) case Some(i) => Some(|a| + i) case None => None
  {
    var fa, fb := NfoFlags(a), NfoFlags(b);
    NfoFlagsConcat(a, b);
    FirstSetConcat(fa, fb);
  }

  /** Only the first match counts: an NFO earlier in the listing hides every later one, and
      names before the first NFO do not change the result. */
  lemma FirstMatchWins(a: seq<string>, b: seq<string>)
    ensures FindNfoFile(a + b) == if FindNfoFile(a).Some? then FindNfoFile(a) else FindNfoFile(b)
  {
    FirstNfoIndexConcat(a, b);
    match FirstNfoIndex(a)
    case Some(i) =>
      assert (a + b)[i] == a[i];
    case None =>
      match FirstNfoIndex(b)
      case Some(i) =>
        assert (a + b)[|a| + i] == b[i];
      case None =>
  }

  // ---------------------------------------------------------------------------
  // get_nfo_details and is_nfo_mismatch
  // ---------------------------------------------------------------------------

  /** The lookup service's answer, decoded: the release name and the lists of NFO names and
      NFO links. */
  datatype NfoLookup = NfoLookup(release: string, nfo: seq<string>, nfolink: seq<string>)

  /** `get_nfo_details` from the response on: a status other than 200 exits; otherwise the
      details are the answer's release and the first NFO name and first link, and an empty
      list raises (the name list is indexed first). */
  function GetNfoDetails(status: int, answer: NfoLookup): (r: Result<NfoDetails, Error>)
    ensures r.Ok? <==> status == 200 && |answer.nfo| > 0 && |answer.nfolink| > 0
    ensures status != 200 ==> r == Err(RequestFailed(status))
    ensures status == 200 && |answer.nfo| == 0 ==> r == Err(EmptyList("nfo"))
    ensures status == 200 && |answer.nfo| > 0 && |answer.nfolink| == 0 ==>
      r == Err(EmptyList("nfolink"))
    ensures r.Ok? ==>
      r.value.dirname == answer.release &&
      r.value.nfoName == answer.nfo[0] && r.value.nfoUrl == answer.nfolink[0]
  {
    if status != 200 then Err(RequestFailed(status))
    else if |answer.nfo| == 0 then Err(EmptyList("nfo"))
    else if |answer.nfolink| == 0 then Err(EmptyList("nfolink"))
    else Ok(NfoDetails(answer.release, answer.nfo[0], answer.nfolink[0]))
  }

  /** `is_nfo_mismatch(dirname, details)` as written, over the listing of `dirname`: with no
      NFO in the directory it exits before comparing; otherwise it answers whether the found
      name EQUALS the expected one, so a directory holding the right NFO reports a
      mismatch. */
  function IsNfoMismatch(dirname: string, listing: seq<string>, details: NfoDetails): (r: Result<bool, Error>)
    ensures r.Err? <==> forall i :: 0 <= i < |listing| ==> !IsNfoName(listing[i])
    ensures r.Err? ==> r.error == NoNfoFile(dirname)
    ensures r.Ok? ==> (r.value <==> FindNfoFile(listing) == Some(details.nfoName))
  {
    var found := FindNfoFile(listing);
    if found.None? || found.value == "" then Err(NoNfoFile(dirname))
    else Ok(found.value == details.nfoName)
  }

  /** A directory whose first NFO is the expected one is reported as mismatched, and one
      whose first NFO has another name is reported as matching. */
  lemma {:induction false} MismatchMeansEqual(dirname: string, listing: seq<string>, details: NfoDetails, i: nat)
    requires i < |listing| && IsNfoName(listing[i])
    requires forall j :: 0 <= j < i ==> !IsNfoName(listing[j])
    ensures IsNfoMismatch(dirname, listing, details) == Ok(listing[i] == details.nfoName)
  {
    var r := FindNfoFile(listing);
    var k :| 0 <= k < |listing| && IsNfoName(listing[k]) && r.value == listing[k] &&
      forall j :: 0 <= j < k ==> !IsNfoName(listing[j]);
    assert !(k < i) && !(i < k);
  }
}
