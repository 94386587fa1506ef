// The directory walker of deploy.mjs (getFilesRecursively), with the file system
// replaced by an abstract tree of directory entries.

module Walker {

  /** One entry of a directory listing: a non-directory entry (a file, but also a symbolic
      link, FIFO or socket, since only `isDirectory()` is asked), or a directory with its own listing,
      in the order the file system lists them. */
  datatype Entry = File(name: string) | Dir(name: string, children: seq<Entry>)

  /** A name a directory listing can hold: not empty, no separator, not "." or "..". */
  predicate ValidName(n: string) {
    n != "" && n != "." && n != ".." && '/' !in n
  }

  /** A listing as a file system produces it: valid names, distinct among siblings,
      and the same below every subdirectory. */
  predicate WellFormed(listing: seq<Entry>)
    decreases listing
  {
    (forall i :: 0 <= i < |listing| ==> ValidName(listing[i].name)) &&
    (forall i, j :: 0 <= i < j < |listing| ==> listing[i].name != listing[j].name) &&
    (forall i :: 0 <= i < |listing| && listing[i].Dir? ==> WellFormed(listing[i].children))
  }

  predicate EndsWithSlash(s: string) {
    |s| > 0 && s[|s| - 1] == '/'
  }

  predicate StartsWith(s: string, prefix: string) {
    |prefix| <= |s| && s[..|prefix|] == prefix
  }

  /** What every path resolved inside `dir` starts with. An absolute, normalised directory
      ends in "/" only when it is the file-system root "/". */
  function Prefix(dir: string): string {
    if EndsWithSlash(dir) then dir else dir + "/"
  }

  /** `path.resolve(dir, name)` for an absolute, normalised `dir` and a listed name. */
  function Resolve(dir: string, name: string): (res: string)
    ensures StartsWith(res, Prefix(dir))
    ensures ValidName(name) ==> !EndsWithSlash(res)
  {
    Prefix(dir) + name
  }

  /** getFilesRecursively(dir) once `fs.readdir(dir)` has returned `listing`:
      each entry is mapped to what it contributes, and the results are concatenated
      in listing order. */
  function Walk(dir: string, listing: seq<Entry>): (paths: seq<string>)
    ensures listing == [] ==> paths == []
    ensures forall p :: p in paths ==> StartsWith(p, Prefix(dir))
    decreases listing
  {
    if listing == [] then [] else Visit(dir, listing[0]) + Walk(dir, listing[1..])
  }

  /** The contribution of one entry: its resolved path for a file, the walk of the
      resolved path for a directory. */
  function Visit(dir: string, e: Entry): (paths: seq<string>)
    ensures forall p :: p in paths ==> StartsWith(p, Prefix(dir))
    decreases e
  {
    var res := Resolve(dir, e.name);
    match e
    case File(_) => [res]
    case Dir(_, children) =>
      var sub := Walk(res, children);
      AllStartWith(sub, Prefix(res), Prefix(dir));
      sub
  }

  /** Paths under a longer prefix are under every prefix of it. */
  lemma {:induction false} AllStartWith(paths: seq<string>, longer: string, shorter: string)
    requires forall p :: p in paths ==> StartsWith(p, longer)
    requires StartsWith(longer, shorter)
    ensures forall p :: p in paths ==> StartsWith(p, shorter)
  {
    forall p | p in paths ensures StartsWith(p, shorter) {
      assert p[..|shorter|] == longer[..|shorter|];
    }
  }

  // ---------------------------------------------------------------------------
  // Reference definitions: the tree's files as chains of names, independent of
  // where the tree is mounted.

  /** The names from the listed directory down to each file, in traversal order. */
  function FileChains(listing: seq<Entry>): (chains: seq<seq<string>>)
    ensures forall i :: 0 <= i < |chains| ==> |chains[i]| > 0
    decreases listing
  {
    if listing == [] then [] else EntryChains(listing[0]) + FileChains(listing[1..])
  }

  function EntryChains(e: Entry): (chains: seq<seq<string>>)
    ensures forall i :: 0 <= i < |chains| ==> |chains[i]| > 0 && chains[i][0] == e.name
    decreases e
  {
    match e
    case File(n) => [[n]]
    case Dir(n, children) => Prepend(n, FileChains(children))
  }

  function Prepend(n: string, chains: seq<seq<string>>): (r: seq<seq<string>>)
    ensures |r| == |chains|
    ensures forall i :: 0 <= i < |r| ==> r[i] == [n] + chains[i]
  {
    seq(|chains|, i requires 0 <= i < |chains| => [n] + chains[i])
  }

  /** The names of a chain joined by "/". */
  function Join(names: seq<string>): string {
    if |names| == 0 then ""
    else if |names| == 1 then names[0]
    else names[0] + "/" + Join(names[1..])
  }

  /** The tree rooted at `listing` holds a non-directory entry reached through `chain`. */
  predicate Contains(listing: seq<Entry>, chain: seq<string>)
    decreases listing
  {
    exists i :: 0 <= i < |listing| && EntryContains(listing[i], chain)
  }

  predicate EntryContains(e: Entry, chain: seq<string>)
    decreases e
  {
    |chain| > 0 && chain[0] == e.name &&
    match e
    case File(_) => |chain| == 1
    case Dir(_, children) => Contains(children, chain[1..])
  }

  predicate NoDuplicates<T(==)>(s: seq<T>) {
    forall i, j :: 0 <= i < j < |s| ==> s[i] != s[j]
  }

  // ---------------------------------------------------------------------------
  // Order: the walk is the flattening of the listing, entry by entry.

  /** Walking a listing split in two walks each part in turn. */
  lemma {:induction false} WalkAppend(dir: string, a: seq<Entry>, b: seq<Entry>)
    ensures Walk(dir, a + b) == Walk(dir, a) + Walk(dir, b)
    decreases a
  {
    if a == [] {
      assert a + b == b;
    } else {
      assert (a + b)[1..] == a[1..] + b;
      WalkAppend(dir, a[1..], b);
    }
  }

  /** Entry k contributes exactly what Visit gives for it (its own path for a file, its
      whole subtree for a directory), contiguously, between what the entries before and
      after it contribute. */
  lemma {:induction false} WalkAt(dir: string, listing: seq<Entry>, k: nat)
    requires k < |listing|
    ensures Walk(dir, listing) ==
      Walk(dir, listing[..k]) + Visit(dir, listing[k]) + Walk(dir, listing[k + 1..])
  {
    var before, after := listing[..k], listing[k + 1..];
    assert listing == (before + [listing[k]]) + after;
    WalkAppend(dir, before + [listing[k]], after);
    WalkAppend(dir, before, [listing[k]]);
    assert [listing[k]][1..] == [];
    assert Walk(dir, [listing[k]]) == Visit(dir, listing[k]);
  }

  // ---------------------------------------------------------------------------
  // Paths: each walked path is the directory followed by the file's chain of names.

  lemma {:induction false} JoinPrepend(n: string, c: seq<string>)
    requires |c| > 0
    ensures Join([n] + c) == n + "/" + Join(c)
  {
    assert ([n] + c)[1..] == c;
  }

  lemma {:induction false} WellFormedTail(listing: seq<Entry>)
    requires WellFormed(listing) && listing != []
    ensures WellFormed(listing[1..])
    ensures ValidName(listing[0].name)
    ensures listing[0].Dir? ==> WellFormed(listing[0].children)
  {
    var rest := listing[1..];
    assert forall i :: 0 <= i < |rest| ==> rest[i] == listing[i + 1];
  }

  /** With well-formed names, the i-th walked path is `dir`, one separator, and the
      i-th file's names joined by "/". */
  lemma {:induction false} WalkIsJoinedChains(dir: string, listing: seq<Entry>)
    requires WellFormed(listing)
    ensures |Walk(dir, listing)| == |FileChains(listing)|
    ensures forall i :: 0 <= i < |Walk(dir, listing)| ==>
      Walk(dir, listing)[i] == Prefix(dir) + Join(FileChains(listing)[i])
    decreases listing
  {
    if listing != [] {
      WellFormedTail(listing);
      var head, tail := Visit(dir, listing[0]), Walk(dir, listing[1..]);
      var headChains, tailChains := EntryChains(listing[0]), FileChains(listing[1..]);
      VisitIsJoinedChains(dir, listing[0]);
      WalkIsJoinedChains(dir, listing[1..]);
      JoinedAppend(Prefix(dir), head, tail, headChains, tailChains);
    }
  }

  /** Two runs of paths, each the prefix plus its chains joined, concatenate to one. */
  lemma {:induction false} JoinedAppend(p: string, head: seq<string>, tail: seq<string>,
                                       hc: seq<seq<string>>, tc: seq<seq<string>>)
    requires |head| == |hc| && |tail| == |tc|
    requires forall i :: 0 <= i < |head| ==> head[i] == p + Join(hc[i])
    requires forall i :: 0 <= i < |tail| ==> tail[i] == p + Join(tc[i])
    ensures forall i :: 0 <= i < |head + tail| ==> (head + tail)[i] == p + Join((hc + tc)[i])
  {
    forall i | 0 <= i < |head + tail| ensures (head + tail)[i] == p + Join((hc + tc)[i]) {
      if i < |head| {
        assert (head + tail)[i] == head[i] && (hc + tc)[i] == hc[i];
      } else {
        var k := i - |head|;
        assert (head + tail)[i] == tail[k] && (hc + tc)[i] == tc[k];
      }
    }
  }

  lemma {:induction false} VisitIsJoinedChains(dir: string, e: Entry)
    requires ValidName(e.name)
    requires e.Dir? ==> WellFormed(e.children)
    ensures |Visit(dir, e)| == |EntryChains(e)|
    ensures forall i :: 0 <= i < |Visit(dir, e)| ==>
      Visit(dir, e)[i] == Prefix(dir) + Join(EntryChains(e)[i])
    decreases e
  {
    if e.Dir? {
      var n, children := e.name, e.children;
      var res := Resolve(dir, n);
      var paths, chains := Walk(res, children), FileChains(children);
      assert Visit(dir, e) == paths;
      assert EntryChains(e) == Prepend(n, chains);
      WalkIsJoinedChains(res, children);
      assert Prefix(res) == Prefix(dir) + n + "/";
      forall i | 0 <= i < |paths|
        ensures paths[i] == Prefix(dir) + Join([n] + chains[i])
      {
        JoinUnder(Prefix(dir), n, chains[i]);
      }
    }
  }

  lemma {:induction false} JoinUnder(p: string, n: string, c: seq<string>)
    requires |c| > 0
    ensures (p + n + "/") + Join(c) == p + Join([n] + c)
  {
    JoinPrepend(n, c);
  }

  // ---------------------------------------------------------------------------
  // Completeness: the chains are exactly the files of the tree.

  /** A chain is produced for the listing exactly when the tree holds a file reached by it. */
  lemma {:induction false} FileChainsAreTheFiles(listing: seq<Entry>, chain: seq<string>)
    ensures chain in FileChains(listing) <==> Contains(listing, chain)
    decreases listing
  {
    if listing != [] {
      var e, rest := listing[0], listing[1..];
      EntryChainsAreTheFiles(e, chain);
      FileChainsAreTheFiles(rest, chain);
      if Contains(listing, chain) {
        var i :| 0 <= i < |listing| && EntryContains(listing[i], chain);
        if i > 0 {
          assert rest[i - 1] == listing[i];
        }
      }
      if Contains(rest, chain) {
        var i :| 0 <= i < |rest| && EntryContains(rest[i], chain);
        assert listing[i + 1] == rest[i];
      }
    }
  }

  lemma {:induction false} EntryChainsAreTheFiles(e: Entry, chain: seq<string>)
    ensures chain in EntryChains(e) <==> EntryContains(e, chain)
    decreases e
  {
    match e
    case File(n) =>
      if |chain| == 1 {
        assert chain == [chain[0]];
      }
    case Dir(n, children) =>
      DirChainsAreTheFiles(e, chain);
  }

  lemma {:induction false} DirChainsAreTheFiles(e: Entry, chain: seq<string>)
    requires e.Dir?
    ensures chain in Prepend(e.name, FileChains(e.children)) <==>
      |chain| > 0 && chain[0] == e.name && Contains(e.children, chain[1..])
    decreases e, 0
  {
    var chains := FileChains(e.children);
    if |chain| > 0 {
      FileChainsAreTheFiles(e.children, chain[1..]);
      if chain[0] == e.name && chain[1..] in chains {
        var j :| 0 <= j < |chains| && chains[j] == chain[1..];
        assert Prepend(e.name, chains)[j] == chain;
      }
    }
    if chain in Prepend(e.name, chains) {
      var i :| 0 <= i < |chains| && chain == [e.name] + chains[i];
      assert chain[1..] == chains[i];
    }
  }

  /** Every name along a chain of a well-formed tree is a valid listing name. */
  lemma {:induction false} ContainedNamesValid(listing: seq<Entry>, chain: seq<string>)
    requires WellFormed(listing) && Contains(listing, chain)
    ensures forall k :: 0 <= k < |chain| ==> ValidName(chain[k])
    decreases listing
  {
    var i :| 0 <= i < |listing| && EntryContains(listing[i], chain);
    if listing[i].Dir? {
      ContainedNamesValid(listing[i].children, chain[1..]);
      assert forall k :: 1 <= k < |chain| ==> chain[k] == chain[1..][k - 1];
    }
  }

  lemma {:induction false} ChainNamesValid(listing: seq<Entry>, i: nat)
    requires WellFormed(listing) && i < |FileChains(listing)|
    ensures forall k :: 0 <= k < |FileChains(listing)[i]| ==> ValidName(FileChains(listing)[i][k])
  {
    FileChainsAreTheFiles(listing, FileChains(listing)[i]);
    ContainedNamesValid(listing, FileChains(listing)[i]);
  }

  // ---------------------------------------------------------------------------
  // Uniqueness: in a well-formed tree every file is walked exactly once.

  lemma {:induction false} NoDuplicatesAppend<T>(a: seq<T>, b: seq<T>)
    requires NoDuplicates(a) && NoDuplicates(b)
    requires forall i, j :: 0 <= i < |a| && 0 <= j < |b| ==> a[i] != b[j]
    ensures NoDuplicates(a + b)
  {
    forall i, j | 0 <= i < j < |a + b| ensures (a + b)[i] != (a + b)[j] {
      if j < |a| {
        assert (a + b)[i] == a[i] && (a + b)[j] == a[j];
      } else if i < |a| {
        assert (a + b)[i] == a[i] && (a + b)[j] == b[j - |a|];
      } else {
        assert (a + b)[i] == b[i - |a|] && (a + b)[j] == b[j - |a|];
      }
    }
  }

  /** Every chain of a listing starts with the name of one of its entries. */
  lemma {:induction false} ChainStartsAtAnEntry(listing: seq<Entry>, j: nat)
    requires j < |FileChains(listing)|
    ensures exists k :: 0 <= k < |listing| && FileChains(listing)[j][0] == listing[k].name
  {
    var c := FileChains(listing)[j];
    FileChainsAreTheFiles(listing, c);
    var k :| 0 <= k < |listing| && EntryContains(listing[k], c);
  }

  /** Sibling names are distinct, so the chains of a well-formed listing are distinct. */
  lemma {:induction false} ChainsDistinct(listing: seq<Entry>)
    requires WellFormed(listing)
    ensures NoDuplicates(FileChains(listing))
    decreases listing
  {
    if listing != [] {
      WellFormedTail(listing);
      var e, rest := listing[0], listing[1..];
      var a, b := EntryChains(e), FileChains(rest);
      EntryChainsDistinct(e);
      ChainsDistinct(rest);
      forall i, j | 0 <= i < |a| && 0 <= j < |b| ensures a[i] != b[j] {
        ChainStartsAtAnEntry(rest, j);
        var k :| 0 <= k < |rest| && b[j][0] == rest[k].name;
        assert rest[k] == listing[k + 1];
        assert a[i][0] == e.name != b[j][0];
      }
      NoDuplicatesAppend(a, b);
    }
  }

  lemma {:induction false} EntryChainsDistinct(e: Entry)
    requires e.Dir? ==> WellFormed(e.children)
    ensures NoDuplicates(EntryChains(e))
    decreases e
  {
    match e
    case File(_) =>
    case Dir(n, children) =>
      var chains := FileChains(children);
      ChainsDistinct(children);
      var r := Prepend(n, chains);
      forall i, j | 0 <= i < j < |r| ensures r[i] != r[j] {
        assert r[i][1..] == chains[i] && r[j][1..] == chains[j];
      }
  }

  /** Index of the first separator in `q`, or |q| when there is none. */
  function FirstSlash(q: string): (k: nat)
    ensures k <= |q|
  {
    if q == [] || q[0] == '/' then 0 else 1 + FirstSlash(q[1..])
  }

  lemma {:induction false} FirstSlashAfter(x: string, s: string)
    requires '/' !in x
    requires s == [] || s[0] == '/'
    ensures FirstSlash(x + s) == |x|
    decreases x
  {
    if x == [] {
      assert x + s == s;
    } else {
      assert (x + s)[0] == x[0] && (x + s)[1..] == x[1..] + s;
      FirstSlashAfter(x[1..], s);
    }
  }

  lemma {:induction false} PrefixCancel(p: string, x: string, y: string)
    ensures p + x == p + y ==> x == y
  {
    assert (p + x)[|p|..] == x;
    assert (p + y)[|p|..] == y;
  }

  /** What follows the first name in a joined chain: nothing, or a separator and the rest. */
  function JoinTail(names: seq<string>): string
    requires |names| > 0
  {
    if |names| == 1 then "" else "/" + Join(names[1..])
  }

  /** Different chains of valid names join to different paths. */
  lemma {:induction false} JoinInjective(a: seq<string>, b: seq<string>)
    requires |a| > 0 && forall k :: 0 <= k < |a| ==> ValidName(a[k])
    requires |b| > 0 && forall k :: 0 <= k < |b| ==> ValidName(b[k])
    ensures Join(a) == Join(b) ==> a == b
    decreases |a|
  {
    var ta, tb := JoinTail(a), JoinTail(b);
    assert Join(a) == a[0] + ta && Join(b) == b[0] + tb;
    FirstSlashAfter(a[0], ta);
    FirstSlashAfter(b[0], tb);
    if Join(a) == Join(b) {
      var q := Join(a);
      assert |a[0]| == |b[0]|;
      assert a[0] == q[..|a[0]|] == b[0];
      PrefixCancel(a[0], ta, tb);
      assert (|a| == 1) == (ta == "") && (|b| == 1) == (tb == "");
      if |a| == 1 {
        assert a == [a[0]] && b == [b[0]];
      } else {
        PrefixCancel("/", Join(a[1..]), Join(b[1..]));
        JoinInjective(a[1..], b[1..]);
        assert a == [a[0]] + a[1..] && b == [b[0]] + b[1..];
      }
    }
  }

  /** `p` is the path of a file the tree holds: `dir`, one separator, and the file's names
      joined by "/". */
  ghost predicate IsFilePath(dir: string, listing: seq<Entry>, p: string) {
    exists c :: Contains(listing, c) && p == Prefix(dir) + Join(c)
  }

  /** The walk returns exactly the paths of the tree's files. */
  lemma {:induction false} WalkIsTheFiles(dir: string, listing: seq<Entry>)
    requires WellFormed(listing)
    ensures forall p :: p in Walk(dir, listing) <==> IsFilePath(dir, listing, p)
  {
    var paths, chains := Walk(dir, listing), FileChains(listing);
    WalkIsJoinedChains(dir, listing);
    forall p | p in paths ensures IsFilePath(dir, listing, p) {
      var i :| 0 <= i < |paths| && paths[i] == p;
      FileChainsAreTheFiles(listing, chains[i]);
    }
    forall p | IsFilePath(dir, listing, p) ensures p in paths {
      var c :| Contains(listing, c) && p == Prefix(dir) + Join(c);
      FileChainsAreTheFiles(listing, c);
      var i :| 0 <= i < |chains| && chains[i] == c;
      assert paths[i] == p;
    }
  }

  /** A well-formed tree's walk lists every file exactly once: exactly the files' paths,
      and no path twice. */
  lemma {:induction false} WalkHasNoDuplicates(dir: string, listing: seq<Entry>)
    requires WellFormed(listing)
    ensures forall p :: p in Walk(dir, listing) <==> IsFilePath(dir, listing, p)
    ensures NoDuplicates(Walk(dir, listing))
  {
    WalkIsTheFiles(dir, listing);
    var paths, chains := Walk(dir, listing), FileChains(listing);
    WalkIsJoinedChains(dir, listing);
    ChainsDistinct(listing);
    forall i, j | 0 <= i < j < |paths| ensures paths[i] != paths[j] {
      ChainNamesValid(listing, i);
      ChainNamesValid(listing, j);
      JoinInjective(chains[i], chains[j]);
      PrefixCancel(Prefix(dir), Join(chains[i]), Join(chains[j]));
    }
  }
}
