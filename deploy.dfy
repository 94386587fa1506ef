// The upload orchestration of deploy.mjs (deploy): logical paths under the "www" root,
// the client's headers, and the consumption of the bulk-add result stream.

module Deploy {
  import opened Walker

  datatype Option<T> = None | Some(value: T)

  /** The virtual root segment every uploaded file is placed under. */
  const Root: string := "www"

  // ---------------------------------------------------------------------------
  // Logical paths

  /** `s.slice(start)` for a non-negative start: empty once `start` passes the end. */
  function Slice(s: string, start: nat): (r: string)
    ensures |r| == if start <= |s| then |s| - start else 0
    ensures forall k :: 0 <= k < |r| ==> r[k] == s[start + k]
  {
    if start <= |s| then s[start..] else ""
  }

  /** The path a walked file is added under: the root segment, a separator, and the walked
      path with the directory and one more character cut off. */
  function LogicalPath(directory: string, path: string): (r: string)
    ensures StartsWith(r, Root + "/")
    ensures StartsWith(path, directory + "/") ==> directory + "/" + r[|Root| + 1..] == path
  {
    Root + "/" + Slice(path, |directory| + 1)
  }

  /** One element of the list handed to the bulk add: its logical path and the walked file
      its content stream reads. */
  datatype FileEntry = FileEntry(path: string, source: string)

  function FileEntries(directory: string, filePaths: seq<string>): (files: seq<FileEntry>)
    ensures |files| == |filePaths|
    ensures forall i :: 0 <= i < |files| ==>
      files[i] == FileEntry(LogicalPath(directory, filePaths[i]), filePaths[i])
  {
    seq(|filePaths|, i requires 0 <= i < |filePaths| =>
      FileEntry(LogicalPath(directory, filePaths[i]), filePaths[i]))
  }

  /** For a directory not ending in "/", the i-th file handed to the bulk add streams the
      i-th walked path and is placed at "www/" followed by the file's names from the
      directory down, joined by "/". */
  lemma {:induction false} LogicalPathsOfWalk(directory: string, listing: seq<Entry>)
    requires !EndsWithSlash(directory) && WellFormed(listing)
    ensures var files := FileEntries(directory, Walk(directory, listing));
      |files| == |FileChains(listing)| &&
      forall i :: 0 <= i < |files| ==>
        files[i].source == Walk(directory, listing)[i] &&
        files[i].path == Root + "/" + Join(FileChains(listing)[i])
  {
    var paths, chains := Walk(directory, listing), FileChains(listing);
    WalkIsJoinedChains(directory, listing);
    forall i | 0 <= i < |paths|
      ensures Slice(paths[i], |directory| + 1) == Join(chains[i])
    {
      assert paths[i] == (directory + "/") + Join(chains[i]);
      assert paths[i][|directory| + 1..] == Join(chains[i]);
    }
  }

  lemma {:induction false} JoinNotEmpty(names: seq<string>)
    requires |names| > 0 && names[0] != ""
    ensures |Join(names)| > 0
  {
    assert Join(names) == names[0] + JoinTail(names);
  }

  /** The logical paths of a well-formed tree are distinct, and none of them is the root
      segment itself, so only the root directory's result can carry "www". */
  lemma {:induction false} LogicalPathsDistinct(directory: string, listing: seq<Entry>)
    requires !EndsWithSlash(directory) && WellFormed(listing)
    ensures var files := FileEntries(directory, Walk(directory, listing));
      (forall i :: 0 <= i < |files| ==> files[i].path != Root) &&
      (forall i, j :: 0 <= i < j < |files| ==> files[i].path != files[j].path)
  {
    var files, chains := FileEntries(directory, Walk(directory, listing)), FileChains(listing);
    LogicalPathsOfWalk(directory, listing);
    ChainsDistinct(listing);
    forall i | 0 <= i < |files| ensures files[i].path != Root {
      ChainNamesValid(listing, i);
      JoinNotEmpty(chains[i]);
      assert |files[i].path| > |Root|;
    }
    forall i, j | 0 <= i < j < |files| ensures files[i].path != files[j].path {
      ChainNamesValid(listing, i);
      ChainNamesValid(listing, j);
      JoinInjective(chains[i], chains[j]);
      PrefixCancel(Root + "/", Join(chains[i]), Join(chains[j]));
    }
  }

  /** Deploying the file-system root "/": resolve gives "/name", not "//name", yet the
      slice still cuts |"/"| + 1 characters, so each logical path loses the first character
      of the file's top-level name. */
  lemma {:induction false} RootDirectoryDropsFirstCharacter(listing: seq<Entry>)
    requires WellFormed(listing)
    ensures var files := FileEntries("/", Walk("/", listing));
      |files| == |FileChains(listing)| &&
      forall i :: 0 <= i < |files| ==>
        files[i].path == Root + "/" + Slice(Join(FileChains(listing)[i]), 1)
  {
    var paths, chains := Walk("/", listing), FileChains(listing);
    WalkIsJoinedChains("/", listing);
    assert Prefix("/") == "/";
    forall i | 0 <= i < |paths|
      ensures Slice(paths[i], 2) == Slice(Join(chains[i]), 1)
    {
      ChainNamesValid(listing, i);
      JoinNotEmpty(chains[i]);
      assert paths[i] == "/" + Join(chains[i]);
      assert paths[i][2..] == Join(chains[i])[1..];
    }
  }

  /** Under the directory "/", a top-level file named by one character and a rest is
      placed at "www/" followed by the rest alone. */
  lemma {:induction false} RootLogicalPath(c: char, rest: string)
    ensures LogicalPath("/", Resolve("/", [c] + rest)) == Root + "/" + rest
  {
    assert Prefix("/") == "/";
    assert ("/" + ([c] + rest))[2..] == rest;
  }

  /** So under "/" two top-level files whose names differ only in their first character
      are handed to the bulk add at the same logical path. */
  lemma {:induction false} RootDirectoryCollision(x: char, y: char, rest: string)
    ensures var files := FileEntries("/", Walk("/", [File([x] + rest), File([y] + rest)]));
      |files| == 2 && files[0].path == files[1].path == Root + "/" + rest
  {
    WalkPair("/", File([x] + rest), File([y] + rest));
    RootLogicalPath(x, rest);
    RootLogicalPath(y, rest);
  }

  /** For instance "ab" and "bb", a well-formed listing, both become "www/b". */
  lemma {:induction false} RootDirectoryCollisionExample()
    ensures WellFormed([File("ab"), File("bb")])
    ensures var files := FileEntries("/", Walk("/", [File("ab"), File("bb")]));
      |files| == 2 && files[0].path == files[1].path == Root + "/" + "b"
  {
    TwoFilesWellFormed("ab", "bb");
    AbBb();
    RootDirectoryCollision('a', 'b', "b");
  }

  lemma {:induction false} AbBb()
    ensures "ab" == ['a'] + "b" && "bb" == ['b'] + "b"
  {
  }

  /** And a top-level file with a one-character name, such as "a", becomes "www/" itself. */
  lemma {:induction false} RootDirectoryOneCharacterName(x: char)
    ensures FileEntries("/", Walk("/", [File([x])])) == [FileEntry(Root + "/", "/" + [x])]
  {
    WalkOneFile("/", [x]);
    assert [x] == [x] + "";
    RootLogicalPath(x, "");
    assert Prefix("/") == "/";
    var files := FileEntries("/", ["/" + [x]]);
    assert |files| == 1 && files[0] == FileEntry(Root + "/", "/" + [x]);
    assert files == [FileEntry(Root + "/", "/" + [x])];
  }

  lemma {:induction false} TwoFilesWellFormed(a: string, b: string)
    requires ValidName(a) && ValidName(b) && a != b
    ensures WellFormed([File(a), File(b)])
  {
  }

  // ---------------------------------------------------------------------------
  // Client headers

  /** JavaScript truthiness of an optional string setting: defined and not empty. */
  predicate Truthy(v: Option<string>)
    ensures Truthy(v) <==> v.Some? && |Render(v)| > 0
  {
    v.Some? && v.value != ""
  }

  /** How a template literal renders an optional value. */
  function Render(v: Option<string>): (r: string)
    ensures v.None? ==> r == "undefined"
    ensures v.Some? ==> r == v.value
  {
    match v
    case None => "undefined"
    case Some(s) => s
  }

  /** The `user:pass` text the header encodes: the rendered user, a colon, the rendered
      password. */
  function Credentials(user: Option<string>, pass: Option<string>): (r: string)
    ensures |r| == |Render(user)| + 1 + |Render(pass)|
    ensures r[..|Render(user)|] == Render(user) && r[|Render(user)|] == ':'
    ensures r[|Render(user)| + 1..] == Render(pass)
  {
    Render(user) + ":" + Render(pass)
  }

  /** The headers the client is created with; `base64` stands for the Buffer encoding. */
  function Headers(user: Option<string>, pass: Option<string>, base64: string -> string)
    : (h: map<string, string>)
    ensures "Content-Encoding" in h && h["Content-Encoding"] == "utf-8"
    ensures "Authorization" in h <==> Truthy(user) || Truthy(pass)
    ensures "Authorization" in h ==> h["Authorization"] == "Basic " + base64(Credentials(user, pass))
    ensures forall k :: k in h ==> k == "Authorization" || k == "Content-Encoding"
  {
    var auth: map<string, string> :=
      if Truthy(user) || Truthy(pass)
      then map["Authorization" := "Basic " + base64(Credentials(user, pass))]
      else map[];
    auth + map["Content-Encoding" := "utf-8"]
  }

  /** How a Basic-auth server reads the decoded credentials (section 2 of RFC 7617): the
      user-id up to the first colon, the password after it. */
  function SplitAtFirstColon(text: string): (string, string) {
    if text == [] then ("", "")
    else if text[0] == ':' then ("", text[1..])
    else
      var (u, p) := SplitAtFirstColon(text[1..]);
      ([text[0]] + u, p)
  }

  lemma {:induction false} SplitJoined(u: string, p: string)
    requires ':' !in u
    ensures SplitAtFirstColon(u + ":" + p) == (u, p)
    decreases u
  {
    if u == [] {
      assert u + ":" + p == [':'] + p;
      assert ([':'] + p)[1..] == p;
    } else {
      assert (u + ":" + p)[0] == u[0];
      assert (u + ":" + p)[1..] == u[1..] + ":" + p;
      SplitJoined(u[1..], p);
      assert [u[0]] + u[1..] == u;
    }
  }

  /** The credential text reads back as the rendered user and password whenever the user
      has no colon. */
  lemma {:induction false} CredentialsRoundTrip(user: Option<string>, pass: Option<string>)
    requires ':' !in Render(user)
    ensures SplitAtFirstColon(Credentials(user, pass)) == (Render(user), Render(pass))
  {
    SplitJoined(Render(user), Render(pass));
  }

  /** With only a user configured the header is still sent, and the server reads the
      password "undefined" (and symmetrically the user "undefined" with only a password). */
  lemma {:induction false} LoneCredentialSendsUndefined(
    user: Option<string>, pass: Option<string>, base64: string -> string)
    requires Truthy(user) != Truthy(pass)
    requires user.None? || pass.None?
    requires ':' !in Render(user)
    ensures "Authorization" in Headers(user, pass, base64)
    ensures var (u, p) := SplitAtFirstColon(Credentials(user, pass));
      if Truthy(user) then u == user.value && p == "undefined"
      else u == "undefined" && p == pass.value
  {
    CredentialsRoundTrip(user, pass);
  }

  /** Connection parameters of the deployment. */
  datatype Connection = Connection(
    host: Option<string>, port: Option<string>, protocol: Option<string>,
    user: Option<string>, pass: Option<string>)

  /** The options the IPFS client is created with. */
  datatype ClientOptions = ClientOptions(
    host: Option<string>, port: Option<string>, protocol: Option<string>,
    headers: map<string, string>, timeout: string)

  function ClientOptionsFor(c: Connection, base64: string -> string): (o: ClientOptions)
    ensures o.host == c.host && o.port == c.port && o.protocol == c.protocol
    ensures o.headers == Headers(c.user, c.pass, base64)
    ensures o.timeout == "5m"
  {
    ClientOptions(c.host, c.port, c.protocol, Headers(c.user, c.pass, base64), "5m")
  }

  // ---------------------------------------------------------------------------
  // The deployment

  /** One node the remote store reports as added. */
  datatype AddResult = AddResult(cid: string, path: string)

  /** One call of the logging sink: a file announced before the upload, or an added node. */
  datatype LogCall = Announce(path: string) | Added(cid: string, path: string)

  /** deploy, for the resolved source `directory` whose listing is `listing`, with the
      store answering the bulk add by `results`. Returns what the client was created with,
      the files handed to the bulk add, the root CID and the calls made to the sink. */
  method Deploy(
    connection: Connection, directory: string, listing: seq<Entry>,
    base64: string -> string, results: seq<AddResult>)
    returns (client: ClientOptions, files: seq<FileEntry>, rootCid: Option<string>, log: seq<LogCall>)
    ensures files == FileEntries(directory, Walk(directory, listing))
    ensures client == ClientOptionsFor(connection, base64)
    ensures |log| == |files| + |results|
    ensures forall i :: 0 <= i < |files| ==> log[i] == Announce(files[i].path)
    ensures forall i :: 0 <= i < |results| ==>
      log[|files| + i] == Added(results[i].cid, results[i].path)
    ensures rootCid.None? <==> forall i :: 0 <= i < |results| ==> results[i].path != Root
    ensures rootCid.Some? ==>
      exists i :: 0 <= i < |results| && results[i] == AddResult(rootCid.value, Root) &&
        forall j :: i < j < |results| ==> results[j].path != Root
  {
    var filePaths := Walk(directory, listing);
    files := FileEntries(directory, filePaths);
    log := [];
    for i := 0 to |files|
      invariant |log| == i
      invariant forall k :: 0 <= k < i ==> log[k] == Announce(files[k].path)
    {
      log := log + [Announce(files[i].path)];
    }
    client := ClientOptionsFor(connection, base64);
    rootCid := None;
    for j := 0 to |results|
      invariant |log| == |files| + j
      invariant forall k :: 0 <= k < |files| ==> log[k] == Announce(files[k].path)
      invariant forall k :: 0 <= k < j ==> log[|files| + k] == Added(results[k].cid, results[k].path)
      invariant rootCid.None? <==> forall k :: 0 <= k < j ==> results[k].path != Root
      invariant rootCid.Some? ==>
        exists k :: 0 <= k < j && results[k] == AddResult(rootCid.value, Root) &&
          forall m :: k < m < j ==> results[m].path != Root
    {
      log := log + [Added(results[j].cid, results[j].path)];
      if results[j].path == Root {
        rootCid := Some(results[j].cid);
      }
    }
  }

  // ---------------------------------------------------------------------------
  // The deployments the repository's tests describe, derived from the contracts above.

  /** The listing of a source directory holding file1.html and css/file2.css, "css" first. */
  function ExampleListing(): seq<Entry> {
    [Dir("css", [File("file2.css")]), File("file1.html")]
  }

  lemma {:induction false} WalkPair(dir: string, a: Entry, b: Entry)
    ensures Walk(dir, [a, b]) == Visit(dir, a) + Visit(dir, b)
  {
    assert [a, b][1..] == [b];
    assert [b][1..] == [];
  }

  lemma {:induction false} WalkOneFile(dir: string, n: string)
    ensures Walk(dir, [File(n)]) == [Resolve(dir, n)]
  {
    assert [File(n)][1..] == [];
  }

  /** Walking it from `directory` yields css/file2.css, then file1.html. */
  lemma ExampleWalk(directory: string)
    ensures Walk(directory, ExampleListing()) ==
      [Resolve(Resolve(directory, "css"), "file2.css"), Resolve(directory, "file1.html")]
  {
    WalkPair(directory, Dir("css", [File("file2.css")]), File("file1.html"));
    WalkOneFile(Resolve(directory, "css"), "file2.css");
  }

  lemma {:induction false} ResolveNested(directory: string, a: string, b: string)
    requires !EndsWithSlash(directory) && ValidName(a)
    ensures Resolve(Resolve(directory, a), b) == directory + "/" + (a + "/" + b)
  {
    assert Prefix(Resolve(directory, a)) == directory + "/" + a + "/";
  }

  lemma {:induction false} LogicalPathUnder(directory: string, rest: string)
    ensures LogicalPath(directory, directory + "/" + rest) == Root + "/" + rest
  {
    assert (directory + "/" + rest)[|directory| + 1..] == rest;
  }

  /** Its two files are handed to the bulk add as www/css/file2.css and www/file1.html. */
  lemma ExampleFiles(directory: string)
    requires !EndsWithSlash(directory)
    ensures var files := FileEntries(directory, Walk(directory, ExampleListing()));
      |files| == 2 &&
      files[0].path == Root + "/" + ("css" + "/" + "file2.css") &&
      files[1].path == Root + "/" + "file1.html"
  {
    var nested, top := Resolve(Resolve(directory, "css"), "file2.css"), Resolve(directory, "file1.html");
    ExampleWalk(directory);
    CssIsValid();
    NestedPairFiles(directory, "css", "file2.css", "file1.html");
    assert FileEntries(directory, Walk(directory, ExampleListing())) ==
      FileEntries(directory, [nested, top]);
  }

  lemma {:induction false} CssIsValid()
    ensures ValidName("css")
  {
  }

  /** A file nested one directory down followed by a top-level file, as the bulk add sees
      them. */
  lemma {:induction false} NestedPairFiles(directory: string, a: string, b: string, c: string)
    requires !EndsWithSlash(directory) && ValidName(a)
    ensures var files := FileEntries(directory,
        [Resolve(Resolve(directory, a), b), Resolve(directory, c)]);
      |files| == 2 && files[0].path == Root + "/" + (a + "/" + b) && files[1].path == Root + "/" + c
  {
    var p0, p1 := directory + "/" + (a + "/" + b), directory + "/" + c;
    ResolveNested(directory, a, b);
    assert Resolve(directory, c) == p1;
    FileEntriesPair(directory, p0, p1);
    LogicalPathUnder(directory, a + "/" + b);
    LogicalPathUnder(directory, c);
  }

  lemma {:induction false} FileEntriesPair(directory: string, p0: string, p1: string)
    ensures FileEntries(directory, [p0, p1]) ==
      [FileEntry(LogicalPath(directory, p0), p0), FileEntry(LogicalPath(directory, p1), p1)]
  {
  }

  lemma ExamplePathText()
    ensures Root + "/" + ("css" + "/" + "file2.css") == "www/css/file2.css"
    ensures Root + "/" + "file1.html" == "www/file1.html"
  {
    var l := Root + "/" + ("css" + "/" + "file2.css");
    forall k | 0 <= k < |l| ensures l[k] == "www/css/file2.css"[k] {
    }
  }

  /** That directory deployed with the store answering with both files and then the root. */
  method ExampleDeployment(base64: string -> string)
    returns (paths: seq<string>, rootCid: Option<string>, log: seq<LogCall>)
    ensures paths == ["www/css/file2.css", "www/file1.html"]
    ensures rootCid == Some("QmRoot")
    ensures log == [
      Announce("www/css/file2.css"), Announce("www/file1.html"),
      Added("QmFile2", "www/css/file2.css"), Added("QmFile1", "www/file1.html"),
      Added("QmRoot", "www")]
  {
    var directory := "/tmp/ipfs-deploy-test-1";
    var results := [
      AddResult("QmFile2", "www/css/file2.css"),
      AddResult("QmFile1", "www/file1.html"),
      AddResult("QmRoot", "www")];
    var none: Option<string> := None;
    var client, files;
    client, files, rootCid, log :=
      Deploy(Connection(none, none, none, none, none), directory, ExampleListing(), base64, results);
    ExampleFiles(directory);
    ExamplePathText();
    var p0, p1 := files[0].path, files[1].path;
    paths := [p0, p1];
    assert results[2].path == Root;
    ghost var i :| 0 <= i < |results| && results[i] == AddResult(rootCid.value, Root) &&
      forall j :: i < j < |results| ==> results[j].path != Root;
    assert results[0].path != Root && results[1].path != Root;
    assert i == 2;
    assert log[0] == Announce(p0) && log[1] == Announce(p1);
    assert log[2] == Added(results[0].cid, results[0].path);
    assert log[3] == Added(results[1].cid, results[1].path);
    assert log[4] == Added(results[2].cid, results[2].path);
    FiveCalls(log);
  }

  lemma {:induction false} FiveCalls(log: seq<LogCall>)
    requires |log| == 5
    ensures log == [log[0], log[1], log[2], log[3], log[4]]
  {
  }

  /** A source directory with nothing in it: nothing is handed to the bulk add and only the
      store's own answer is logged, entry by entry; when that answer does not name the root,
      no root CID is returned. */
  method EmptyDeployment(base64: string -> string, results: seq<AddResult>)
    returns (files: seq<FileEntry>, rootCid: Option<string>, log: seq<LogCall>)
    requires forall i :: 0 <= i < |results| ==> results[i].path != Root
    ensures files == []
    ensures rootCid == None
    ensures |log| == |results|
    ensures forall i :: 0 <= i < |results| ==> log[i] == Added(results[i].cid, results[i].path)
  {
    var none: Option<string> := None;
    var client;
    client, files, rootCid, log :=
      Deploy(Connection(none, none, none, none, none), "/tmp/ipfs-deploy-test-2", [], base64, results);
  }

  /** The client options created for host, port, protocol, user and password all set. */
  lemma ClientOptionsExample(base64: string -> string)
    ensures ClientOptionsFor(
      Connection(Some("ipfs.example.com"), Some("1234"), Some("https"),
        Some("testUser"), Some("testPass")), base64) ==
      ClientOptions(Some("ipfs.example.com"), Some("1234"), Some("https"),
        map["Authorization" := "Basic " + base64("testUser:testPass"),
            "Content-Encoding" := "utf-8"],
        "5m")
  {
    var h := Headers(Some("testUser"), Some("testPass"), base64);
    assert Credentials(Some("testUser"), Some("testPass")) == "testUser:testPass";
    assert h.Keys == {"Authorization", "Content-Encoding"};
  }
}
