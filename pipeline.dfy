/** The analysis pipeline of main.py: dispatch on the file suffix (extract_usernames), the
    difference of the two handle sets (find_non_followers) and the decisions of process_zip once
    the archive is extracted. */
module Pipeline {
  import opened Outcomes
  import opened PyText
  import opened Extract
  import opened Locator

  const FollowingNames: seq<string> := ["following.html", "following.json"]
  const FollowersNames: seq<string> := ["followers.html", "followers_1.html", "followers.json", "followers_1.json"]
  const PendingNames: seq<string> := ["pending_follow_requests.html", "pending_follow_requests.json"]
  const MissingFilesMessage := "Could not find both following and followers files in the ZIP."

  /** What the extractors see of a file: the text of each <a> element as the HTML parser finds
      it, and the document json.load returns (None when it rejects the file). */
  datatype FileData = FileData(anchorTexts: seq<string>, json: Option<Json>)

  /** The three paths process_zip reports: following, followers and (if found) pending. */
  datatype Files = Files(following: string, followers: string, pending: Option<string>)

  /** The sets of handles behind what process_zip returns, or the reason it returns none. */
  datatype Analysis =
    | Missing(message: string)
    | Failure(error: Error)
    | Success(nonFollowers: set<string>, pending: set<string>, files: Files)

  /** What process_zip returns: the error message, the exception that escapes it, or the two
      lists (in the arbitrary order of list(set)) and the paths. */
  datatype ZipOutcome =
    | NotFound(message: string)
    | Raised(error: Error)
    | Found(nonFollowers: seq<string>, pending: seq<string>, files: Files)

  // ---------------------------------------------------------------------------
  // Lists built from sets

  predicate Distinct(xs: seq<string>) {
    forall i, j :: 0 <= i < j < |xs| ==> xs[i] != xs[j]
  }

  function Members(xs: seq<string>): set<string> {
    set i | 0 <= i < |xs| :: xs[i]
  }

  /** Appending a new element keeps a list distinct and adds it to the members. */
  lemma AppendNew(xs: seq<string>, h: string)
    requires Distinct(xs) && h !in Members(xs)
    ensures Distinct(xs + [h])
    ensures Members(xs + [h]) == Members(xs) + {h}
  {
    var ys := xs + [h];
    assert ys[|xs|] == h;
    assert forall i :: 0 <= i < |xs| ==> ys[i] == xs[i];
    assert forall i :: 0 <= i < |xs| ==> xs[i] in Members(xs);
  }

  /** list(s): every element of the set once, in some order. */
  method ListOf(s: set<string>) returns (xs: seq<string>)
    ensures Distinct(xs)
    ensures Members(xs) == s
    ensures |xs| == |s|
  {
    xs := [];
    var rest := s;
    while rest != {}
      invariant Distinct(xs)
      invariant Members(xs) + rest == s && Members(xs) !! rest
      invariant |xs| + |rest| == |s|
      decreases |rest|
    {
      var h :| h in rest;
      AppendNew(xs, h);
      xs := xs + [h];
      rest := rest - {h};
    }
  }

  // ---------------------------------------------------------------------------
  // extract_usernames

  /** extract_usernames(path): the HTML extractor for a path ending in ".html", the JSON one
      for a path ending in ".json", and no handles otherwise. The suffix test is
      case-sensitive. Only a JSON file can raise. */
  function ExtractUsernames(path: string, file: FileData): (r: Result<set<string>>)
    ensures EndsWith(path, ".html") ==> r == Ok(HtmlHandles(file.anchorTexts))
    ensures !EndsWith(path, ".html") && !EndsWith(path, ".json") ==> r == Ok({})
    ensures r.Err? ==> EndsWith(path, ".json")
  {
    if EndsWith(path, ".html") then Ok(HtmlHandles(file.anchorTexts))
    else if EndsWith(path, ".json") then
      match file.json
      case None => Err(NotJson)
      case Some(data) => JsonHandles(data)
    else Ok({})
  }

  /** Every handle extract_usernames reports is trimmed of surrounding whitespace. */
  lemma ExtractedHandlesTrimmed(path: string, file: FileData, h: string)
    requires ExtractUsernames(path, file).Ok? && h in ExtractUsernames(path, file).value
    ensures h == Strip(h)
    ensures h != [] ==> !IsSpace(h[0]) && !IsSpace(h[|h| - 1])
  {
    if EndsWith(path, ".html") {
      HtmlHandlesTrimmed(file.anchorTexts, h);
    } else {
      JsonHandlesTrimmed(file.json.value, h);
    }
    StripSpec(h);
  }

  /** A JSON path whose document is well formed gets exactly the JSON extractor's result, and
      a rejected document raises. */
  lemma JsonDispatch(path: string, file: FileData)
    requires EndsWith(path, ".json")
    ensures file.json.None? ==> ExtractUsernames(path, file) == Err(NotJson)
    ensures file.json.Some? ==> ExtractUsernames(path, file) == JsonHandles(file.json.value)
  {
    assert !EndsWith(path, ".html") by {
      assert path[|path| - 4..][3] == 'n';
      if |path| >= 5 {
        assert path[|path| - 5..][4] == 'n';
      }
    }
  }

  /** Upper-case suffixes are not recognised: such files contribute nothing, whatever they
      hold. */
  lemma SuffixIsCaseSensitive(file: FileData)
    ensures ExtractUsernames("following.JSON", file) == Ok({})
    ensures ExtractUsernames("followers.HTML", file) == Ok({})
  {
    assert !EndsWith("following.JSON", ".json") by {
      assert "following.JSON"[9..][1] != ".json"[1];
    }
    assert !EndsWith("following.JSON", ".html") by {
      assert "following.JSON"[9..][1] != ".html"[1];
    }
    assert !EndsWith("followers.HTML", ".html") by {
      assert "followers.HTML"[9..][1] != ".html"[1];
    }
    assert !EndsWith("followers.HTML", ".json") by {
      assert "followers.HTML"[9..][1] != ".json"[1];
    }
  }

  // ---------------------------------------------------------------------------
  // find_non_followers

  /** following - followers, the following file read first: the first exception raised is the
      one that escapes. */
  function NonFollowers(followingPath: string, followingFile: FileData, followersPath: string, followersFile: FileData): Result<set<string>> {
    var following :- ExtractUsernames(followingPath, followingFile);
    var followers :- ExtractUsernames(followersPath, followersFile);
    Ok(following - followers)
  }

  /** The non-followers are the handles of the following file absent from the followers
      file: none of them follows back, and every account that does not is among them. */
  lemma NonFollowersSpec(followingPath: string, followingFile: FileData, followersPath: string, followersFile: FileData)
    ensures var following := ExtractUsernames(followingPath, followingFile);
      var followers := ExtractUsernames(followersPath, followersFile);
      var r := NonFollowers(followingPath, followingFile, followersPath, followersFile);
      && (r.Ok? <==> following.Ok? && followers.Ok?)
      && (following.Err? ==> r == Err(following.error))
      && (following.Ok? && followers.Err? ==> r == Err(followers.error))
      && (r.Ok? ==> r.value <= following.value && r.value !! followers.value)
      && (r.Ok? ==> forall h :: h in following.value && h !in followers.value ==> h in r.value)
  {
  }

  /** find_non_followers: the difference as a list without repetitions. */
  method FindNonFollowers(followingPath: string, followingFile: FileData, followersPath: string, followersFile: FileData)
    returns (r: Result<seq<string>>)
    ensures r.Err? ==> NonFollowers(followingPath, followingFile, followersPath, followersFile) == Err(r.error)
    ensures r.Ok? ==> NonFollowers(followingPath, followingFile, followersPath, followersFile) == Ok(Members(r.value))
    ensures r.Ok? ==> Distinct(r.value)
  {
    var following := ExtractUsernames(followingPath, followingFile);
    if following.Err? {
      return Err(following.error);
    }
    var followers := ExtractUsernames(followersPath, followersFile);
    if followers.Err? {
      return Err(followers.error);
    }
    var list := ListOf(following.value - followers.value);
    r := Ok(list);
  }

  // ---------------------------------------------------------------------------
  // process_zip

  /** The pending handles: none when no pending file was found. */
  function PendingHandles(pending: Option<string>, read: string -> FileData): Result<set<string>> {
    match pending
    case None => Ok({})
    case Some(path) => ExtractUsernames(path, read(path))
  }

  /** What process_zip decides for an extracted tree, given the listing os.walk produces for it
      and the contents of its files. The message comes first when either required file is
      missing; otherwise the non-followers are computed, then the pending requests. */
  function Analyze(walk: seq<WalkEntry>, read: string -> FileData): Analysis {
    var following := FirstMatch(FollowingNames, walk);
    var followers := FirstMatch(FollowersNames, walk);
    var pending := FirstMatch(PendingNames, walk);
    if following.None? || followers.None? then Missing(MissingFilesMessage)
    else
      match NonFollowers(following.value, read(following.value), followers.value, read(followers.value))
      case Err(e) => Failure(e)
      case Ok(nonFollowers) =>
        match PendingHandles(pending, read)
        case Err(e) => Failure(e)
        case Ok(p) => Success(nonFollowers, p, Files(following.value, followers.value, pending))
  }

  /** The sets behind what process_zip returns. */
  function Summary(outcome: ZipOutcome): Analysis {
    match outcome
    case NotFound(message) => Missing(message)
    case Raised(e) => Failure(e)
    case Found(nonFollowers, pending, files) => Success(Members(nonFollowers), Members(pending), files)
  }

  /** process_zip after extraction: look up the three files, give up with the fixed message
      unless both following and followers were found, and otherwise list the non-followers and
      the pending requests. */
  method ProcessZip(walk: seq<WalkEntry>, read: string -> FileData) returns (outcome: ZipOutcome)
    ensures Summary(outcome) == Analyze(walk, read)
    ensures outcome.Found? ==> Distinct(outcome.nonFollowers) && Distinct(outcome.pending)
  {
    var followingFile := FindFile(FollowingNames, walk);
    var followersFile := FindFile(FollowersNames, walk);
    var pendingFile := FindFile(PendingNames, walk);
    if followingFile.None? || followersFile.None? {
      return NotFound(MissingFilesMessage);
    }
    var nonFollowers := FindNonFollowers(followingFile.value, read(followingFile.value), followersFile.value, read(followersFile.value));
    if nonFollowers.Err? {
      return Raised(nonFollowers.error);
    }
    var pendingRequests: seq<string> := [];
    if pendingFile.Some? {
      var handles := ExtractUsernames(pendingFile.value, read(pendingFile.value));
      if handles.Err? {
        return Raised(handles.error);
      }
      pendingRequests := ListOf(handles.value);
    }
    outcome := Found(nonFollowers.value, pendingRequests, Files(followingFile.value, followersFile.value, pendingFile));
  }

  // ---------------------------------------------------------------------------
  // Properties of the pipeline

  /** Whether some directory of the walk holds one of the names. */
  predicate Present(names: seq<string>, walk: seq<WalkEntry>) {
    exists d, j :: 0 <= d < |walk| && 0 <= j < |names| && names[j] in walk[d].files
  }

  /** The fixed message is the outcome exactly when no directory holds a following file or no
      directory holds a followers file. */
  lemma MissingExactly(walk: seq<WalkEntry>, read: string -> FileData)
    ensures Analyze(walk, read).Missing? <==> !Present(FollowingNames, walk) || !Present(FollowersNames, walk)
    ensures Analyze(walk, read).Missing? ==> Analyze(walk, read).message == MissingFilesMessage
  {
    FirstMatchSpec(FollowingNames, walk);
    FirstMatchSpec(FollowersNames, walk);
  }

  /** On success, the non-followers are exactly the handles of the following file that are not
      in the followers file; in particular none of them follows back. */
  lemma NonFollowersDisjoint(walk: seq<WalkEntry>, read: string -> FileData)
    requires Analyze(walk, read).Success?
    ensures var a := Analyze(walk, read);
      var following := ExtractUsernames(a.files.following, read(a.files.following));
      var followers := ExtractUsernames(a.files.followers, read(a.files.followers));
      && following.Ok? && followers.Ok?
      && a.nonFollowers == following.value - followers.value
      && a.nonFollowers !! followers.value
  {
    var a := Analyze(walk, read);
    NonFollowersSpec(a.files.following, read(a.files.following), a.files.followers, read(a.files.followers));
  }

  /** Without a pending file there are no pending requests, and the pending lookup cannot make
      the analysis fail. */
  lemma NoPendingFile(walk: seq<WalkEntry>, read: string -> FileData)
    requires !Present(PendingNames, walk)
    ensures Analyze(walk, read).Success? ==> Analyze(walk, read).pending == {}
    ensures Analyze(walk, read).Success? ==> Analyze(walk, read).files.pending == None
    ensures var following, followers := FirstMatch(FollowingNames, walk), FirstMatch(FollowersNames, walk);
      following.Some? && followers.Some?
      && NonFollowers(following.value, read(following.value), followers.value, read(followers.value)).Ok?
      ==> Analyze(walk, read).Success?
  {
    FirstMatchSpec(PendingNames, walk);
  }

  /** The reported paths are the ones find_file picks, and each ends with a candidate name. */
  lemma ReportedFiles(walk: seq<WalkEntry>, read: string -> FileData)
    requires Analyze(walk, read).Success?
    ensures var files := Analyze(walk, read).files;
      && Some(files.following) == FirstMatch(FollowingNames, walk)
      && Some(files.followers) == FirstMatch(FollowersNames, walk)
      && files.pending == FirstMatch(PendingNames, walk)
      && (exists j :: 0 <= j < |FollowingNames| && EndsWith(files.following, FollowingNames[j]))
      && (exists j :: 0 <= j < |FollowersNames| && EndsWith(files.followers, FollowersNames[j]))
  {
    var files := Analyze(walk, read).files;
    FirstMatchSpec(FollowingNames, walk);
    FirstMatchSpec(FollowersNames, walk);
    var d, j :| IsFirstHit(FollowingNames, walk, d, j) && files.following == PathJoin(walk[d].dirpath, FollowingNames[j]);
    PathJoinEndsWithName(walk[d].dirpath, FollowingNames[j]);
    var e, k :| IsFirstHit(FollowersNames, walk, e, k) && files.followers == PathJoin(walk[e].dirpath, FollowersNames[k]);
    PathJoinEndsWithName(walk[e].dirpath, FollowersNames[k]);
  }

  // ---------------------------------------------------------------------------
  // Worked examples

  /** The file contents of the end-to-end example: following.json lists alice, bob and carol,
      followers.html links alice and bob. */
  function ExampleRead(path: string): FileData {
    if path == "export/following.json" then
      FileData([], Some(JArr([ListRecord("alice"), ListRecord("bob"), ListRecord("carol")])))
    else FileData(["alice", " bob "], None)
  }

  /** The archive with following.json and followers.html and no pending file yields carol as
      the only non-follower and no pending requests. */
  lemma EndToEndExample()
    ensures Analyze(ExampleWalk(), ExampleRead)
      == Success({"carol"}, {}, Files("export/following.json", "export/followers.html", None))
  {
    ExampleFollowingLookup();
    ExampleFollowersLookup();
    ExamplePendingLookup();
    ExampleNonFollowers();
  }

  lemma ExampleNonFollowers()
    ensures NonFollowers("export/following.json", ExampleRead("export/following.json"),
      "export/followers.html", ExampleRead("export/followers.html")) == Ok({"carol"})
  {
    ExampleFollowing();
    ExampleFollowers();
    assert {"alice", "bob", "carol"} - {"alice", "bob"} == {"carol"};
  }

  function ExampleWalk(): seq<WalkEntry> {
    [WalkEntry("export", ["followers.html", "following.json"])]
  }

  lemma ExampleFollowingLookup()
    ensures FirstMatch(FollowingNames, ExampleWalk()) == Some("export/following.json")
  {
    var walk := ExampleWalk();
    assert FollowingNames[0] !in walk[0].files;
    assert FollowingNames[1] in walk[0].files;
    assert FirstCandidate(FollowingNames[1..], walk[0].files) == Some("following.json");
    assert PathJoin("export", "following.json") == "export/following.json";
  }

  lemma ExampleFollowersLookup()
    ensures FirstMatch(FollowersNames, ExampleWalk()) == Some("export/followers.html")
  {
    var walk := ExampleWalk();
    assert FollowersNames[0] in walk[0].files;
    assert FirstCandidate(FollowersNames, walk[0].files) == Some("followers.html");
    assert PathJoin("export", "followers.html") == "export/followers.html";
  }

  lemma ExamplePendingLookup()
    ensures FirstMatch(PendingNames, ExampleWalk()) == None
  {
    var walk := ExampleWalk();
    assert PendingNames[0] !in walk[0].files;
    assert PendingNames[1] !in walk[0].files;
    assert FirstCandidate(PendingNames[1..][1..], walk[0].files) == None;
    assert walk[1..] == [];
  }

  lemma ExampleFollowing()
    ensures ExtractUsernames("export/following.json", ExampleRead("export/following.json")) == Ok({"alice", "bob", "carol"})
  {
    JsonDispatch("export/following.json", ExampleRead("export/following.json"));
    ThreeRecords("alice", "bob", "carol");
    StripTrimmed("alice");
    StripTrimmed("bob");
    StripTrimmed("carol");
  }

  lemma ExampleFollowers()
    ensures ExtractUsernames("export/followers.html", ExampleRead("export/followers.html")) == Ok({"alice", "bob"})
  {
    var texts := ["alice", " bob "];
    assert ExampleRead("export/followers.html").anchorTexts == texts;
    assert HtmlHandles(texts) == {Strip(texts[0]), Strip(texts[1])};
    StripTrimmed("alice");
    assert RStrip(" bob ") == RStrip(" bob") == " bob";
    assert LStrip(" bob") == LStrip("bob") == "bob";
  }

  /** A list-form record contributes its stripped handle. */
  lemma RecordHandles(h: string)
    ensures HasList(ListRecord(h)) && ListOk(ListRecord(h).fields[StringListData])
    ensures EntryHandles(ListRecord(h)) == {Strip(h)}
  {
    var item := JObj(map[Value := JStr(h)]);
    assert ItemValues([item]) == ItemValues([item][..0]) + {ItemValue(item)};
    assert [item][..0] == [];
  }

  lemma ThreeRecords(a: string, b: string, c: string)
    ensures JsonHandles(JArr([ListRecord(a), ListRecord(b), ListRecord(c)])) == Ok({Strip(a), Strip(b), Strip(c)})
  {
    var entries := [ListRecord(a), ListRecord(b), ListRecord(c)];
    RecordHandles(a);
    RecordHandles(b);
    RecordHandles(c);
    assert EntriesOk(entries);
    assert entries[..2][..1][..0] == [];
    assert entries[..2][..1] == [ListRecord(a)];
    assert entries[..2] == [ListRecord(a), ListRecord(b)];
    assert ListHandles(entries) == ListHandles(entries[..2]) + EntryHandles(ListRecord(c));
    assert ListHandles(entries[..2]) == ListHandles(entries[..2][..1]) + EntryHandles(ListRecord(b));
    assert ListHandles(entries[..2][..1]) == ListHandles(entries[..2][..1][..0]) + EntryHandles(ListRecord(a));
    assert ListHandles(entries) == {Strip(a), Strip(b), Strip(c)};
  }

  /** A tree holding only the followers export gets the fixed message, whatever the files hold. */
  lemma MissingFollowingExample(read: string -> FileData)
    ensures Analyze([WalkEntry("export", ["followers_1.json"])], read) == Missing(MissingFilesMessage)
  {
    var walk := [WalkEntry("export", ["followers_1.json"])];
    assert FirstMatch(FollowingNames, walk) == None by {
      assert FollowingNames[0] !in walk[0].files;
      assert FollowingNames[1] !in walk[0].files;
    }
  }

  /** The first directory in walk order wins over the order of the candidate names: a
      followers_1.html met first is preferred to a followers.html met later. */
  lemma WalkOrderWins()
    ensures FirstMatch(FollowersNames, [WalkEntry("a", ["followers_1.html"]), WalkEntry("b", ["followers.html"])])
      == Some("a/followers_1.html")
  {
    var files := ["followers_1.html"];
    assert FollowersNames[0] !in files;
    assert FollowersNames[1] in files;
    assert FirstCandidate(FollowersNames[1..], files) == Some("followers_1.html");
    assert FirstCandidate(FollowersNames, files) == Some("followers_1.html");
    assert PathJoin("a", "followers_1.html") == "a/followers_1.html";
  }
}
