/**
 * The download step of `fetch_jira_issue` in main.py: the issue's summary and
 * attachments are already fetched and arrive as an `Issue` value; the
 * file system is a set of directories and a map from file paths to contents.
 * The target directory is `<root>/<issue id>_<slug of summary>`; nothing is
 * done for an issue without attachments, an existing directory aborts the
 * download unless the override flag is set, and otherwise every attachment
 * is written to `<dir>/<filename>`, replacing what was there.
 */
module Download {
  import opened Slug

  newtype byte = x: int | 0 <= x < 256

  /** An attachment: its file name on the server and its bytes. */
  datatype Attachment = Attachment(filename: string, content: seq<byte>)

  /** What the download step reads of an issue. */
  datatype Issue = Issue(summary: string, attachments: seq<Attachment>)

  /** Which of the three paths a fetch took (each has its own log line). */
  datatype FetchOutcome =
    | NoAttachments
    | DirectoryExists
    | Downloaded(reusedDirectory: bool)

  /**
   * `os.path.join(a, b)` on POSIX: an absolute `b` replaces `a`; otherwise a
   * `/` is put between the two unless `a` is empty or already ends in `/`.
   */
  function PathJoin(a: string, b: string): (r: string)
    ensures |b| <= |r| && r[|r| - |b|..] == b
    ensures b != [] && b[0] == '/' ==> r == b
    ensures (b == [] || b[0] != '/') ==> r[..|r| - |b|] == (if a == [] || a[|a| - 1] == '/' then a else a + "/")
  {
    if b != [] && b[0] == '/' then b
    else if a == [] || a[|a| - 1] == '/' then a + b
    else a + "/" + b
  }

  /**
   * The path of file `name` inside directory `dir`: `os.path.join(dir, name)`
   * for the case the download step meets, a non-empty `dir` that does not
   * end in `/` (see `DownloadDir`) and a relative `name`.
   */
  function Join(dir: string, name: string): (r: string)
    ensures IsInDir(r, dir) && r[|dir| + 1..] == name
    ensures dir != [] && dir[|dir| - 1] != '/' && (name == [] || name[0] != '/') ==> r == PathJoin(dir, name)
  {
    dir + "/" + name
  }

  /** The name of an issue's download directory: the key, `_`, then a slug. */
  function DirName(issueId: string, summary: string): (r: string)
    ensures |r| > |issueId| && r[..|issueId| + 1] == issueId + "_"
    ensures IsSlug(r[|issueId| + 1..])
    ensures r[|r| - 1] != '/'
  {
    var slug := Slugify(summary);
    assert slug != [] ==> IsSlugChar(slug[|slug| - 1]);
    issueId + "_" + slug
  }

  /** Joining keeps the last character of a non-empty second part. */
  lemma PathJoinLast(a: string, b: string)
    requires b != []
    ensures PathJoin(a, b) != [] && PathJoin(a, b)[|PathJoin(a, b)| - 1] == b[|b| - 1]
  {
    var r := PathJoin(a, b);
    assert r[|r| - |b|..][|b| - 1] == r[|r| - 1];
  }

  /**
   * The issue's download directory: `os.path.join(root, name)`. Whatever the
   * root, it is non-empty and does not end in `/`, so joining a relative file
   * name to it is `dir + "/" + name`.
   */
  function DownloadDir(root: string, issueId: string, summary: string): (r: string)
    ensures r != [] && r[|r| - 1] != '/'
  {
    PathJoinLast(root, DirName(issueId, summary));
    PathJoin(root, DirName(issueId, summary))
  }

  /** Writing one more attachment extends the state after the ones before it. */
  lemma AfterWritesStep(files: map<string, seq<byte>>, dir: string, atts: seq<Attachment>, i: nat)
    requires i < |atts|
    ensures AfterWrites(files, dir, atts[..i + 1]) ==
      AfterWrites(files, dir, atts[..i])[Join(dir, atts[i].filename) := atts[i].content]
  {
    assert atts[..i + 1][..i] == atts[..i];
  }

  /** `path` names something inside directory `dir`. */
  predicate IsInDir(path: string, dir: string) {
    dir + "/" <= path
  }

  /** The paths the attachments are written to. */
  function WrittenPaths(dir: string, atts: seq<Attachment>): set<string> {
    set k | 0 <= k < |atts| :: Join(dir, atts[k].filename)
  }

  lemma WrittenPathsSnoc(dir: string, atts: seq<Attachment>)
    requires atts != []
    ensures WrittenPaths(dir, atts) ==
      WrittenPaths(dir, atts[..|atts| - 1]) + {Join(dir, atts[|atts| - 1].filename)}
  {
    var init := atts[..|atts| - 1];
    var last := Join(dir, atts[|atts| - 1].filename);
    forall p | p in WrittenPaths(dir, atts) ensures p in WrittenPaths(dir, init) + {last} {
      var k :| 0 <= k < |atts| && p == Join(dir, atts[k].filename);
      if k < |init| {
        assert init[k] == atts[k];
      }
    }
    forall p | p in WrittenPaths(dir, init) ensures p in WrittenPaths(dir, atts) {
      var k :| 0 <= k < |init| && p == Join(dir, init[k].filename);
      assert atts[k] == init[k];
    }
  }

  /**
   * The file map after writing `atts` into `dir` one after the other: the
   * old files plus exactly one file per attachment path.
   */
  function AfterWrites(files: map<string, seq<byte>>, dir: string, atts: seq<Attachment>): (r: map<string, seq<byte>>)
    ensures r.Keys == files.Keys + WrittenPaths(dir, atts)
    decreases |atts|
  {
    if atts == [] then files
    else
      var last := atts[|atts| - 1];
      WrittenPathsSnoc(dir, atts);
      AfterWrites(files, dir, atts[..|atts| - 1])[Join(dir, last.filename) := last.content]
  }

  /** The index of the last attachment called `name`, or -1 when there is none. */
  function LastIndexOf(atts: seq<Attachment>, name: string): (r: int)
    ensures -1 <= r < |atts|
    ensures r >= 0 ==> atts[r].filename == name
    ensures forall k :: r < k < |atts| ==> atts[k].filename != name
    decreases |atts|
  {
    if atts == [] then -1
    else if atts[|atts| - 1].filename == name then |atts| - 1
    else LastIndexOf(atts[..|atts| - 1], name)
  }

  // ---------------------------------------------------------------------------
  // The directory name

  /** The directory name is the issue key, `_`, then the slug of the summary. */
  lemma DirNameShape(issueId: string, summary: string)
    ensures var name := DirName(issueId, summary);
      |name| == |issueId| + 1 + |Slugify(summary)| &&
      name[..|issueId| + 1] == issueId + "_" &&
      name[|issueId| + 1..] == Slugify(summary) &&
      IsSlug(name[|issueId| + 1..])
  {
  }

  /**
   * A key without `/` gives a directory name without `/`, so the download
   * directory sits directly under the root.
   */
  lemma DirNameIsOneComponent(issueId: string, summary: string)
    requires forall i :: 0 <= i < |issueId| ==> issueId[i] != '/'
    ensures forall i :: 0 <= i < |DirName(issueId, summary)| ==> DirName(issueId, summary)[i] != '/'
  {
  }

  /**
   * The download directory ends with the directory name; for a key that does
   * not start with `/` it lies inside the root, which is the working
   * directory when the root is empty.
   */
  lemma DownloadDirUnderRoot(root: string, issueId: string, summary: string)
    ensures var dir := DownloadDir(root, issueId, summary);
      var name := DirName(issueId, summary);
      |name| <= |dir| && dir[|dir| - |name|..] == name
    ensures issueId == [] || issueId[0] != '/' ==>
      var dir := DownloadDir(root, issueId, summary);
      var name := DirName(issueId, summary);
      dir == (if root == [] then name else if root[|root| - 1] == '/' then root + name else Join(root, name))
  {
    var name := DirName(issueId, summary);
    assert name[0] == (issueId + "_")[0];
  }

  /** The end-to-end example: issue ABC-1 titled "Fix Login Bug!". */
  lemma DirNameExample(issueId: string, summary: string)
    requires issueId == "ABC-1" && summary == "Fix Login Bug!"
    ensures DirName(issueId, summary) == "ABC-1_fix-login-bug"
  {
    SlugifyFixLoginBug(summary);
    DirNameOfSlug(issueId, summary, "fix-login-bug");
    ExampleDirName(issueId);
  }

  lemma ExampleDirName(issueId: string)
    requires issueId == "ABC-1"
    ensures issueId + "_" + "fix-login-bug" == "ABC-1_fix-login-bug"
  {
    assert issueId + "_" == "ABC-1_";
  }

  lemma DirNameOfSlug(issueId: string, summary: string, slug: string)
    requires Slugify(summary) == slug
    ensures DirName(issueId, summary) == issueId + "_" + slug
  {
  }

  // ---------------------------------------------------------------------------
  // Writing the attachments

  /** The content at an attachment's path is that of the last attachment with that name. */
  lemma {:induction false} AfterWritesLastWins(files: map<string, seq<byte>>, dir: string, atts: seq<Attachment>, name: string)
    requires LastIndexOf(atts, name) >= 0
    ensures Join(dir, name) in AfterWrites(files, dir, atts)
    ensures AfterWrites(files, dir, atts)[Join(dir, name)] == atts[LastIndexOf(atts, name)].content
    decreases |atts|
  {
    var last := atts[|atts| - 1];
    if last.filename != name {
      var init := atts[..|atts| - 1];
      assert LastIndexOf(atts, name) == LastIndexOf(init, name);
      AfterWritesLastWins(files, dir, init, name);
      if Join(dir, last.filename) == Join(dir, name) {
        JoinInjective(dir, last.filename, name);
      }
    }
  }

  /** A path that no attachment is written to keeps its content, or stays absent. */
  lemma {:induction false} AfterWritesElsewhere(files: map<string, seq<byte>>, dir: string, atts: seq<Attachment>, path: string)
    requires path !in WrittenPaths(dir, atts)
    ensures path in AfterWrites(files, dir, atts) <==> path in files
    ensures path in files ==> AfterWrites(files, dir, atts)[path] == files[path]
    decreases |atts|
  {
    if atts != [] {
      var init := atts[..|atts| - 1];
      assert WrittenPaths(dir, init) <= WrittenPaths(dir, atts) by {
        forall p | p in WrittenPaths(dir, init) ensures p in WrittenPaths(dir, atts) {
          var k :| 0 <= k < |init| && p == Join(dir, init[k].filename);
          assert atts[k] == init[k];
        }
      }
      assert Join(dir, atts[|atts| - 1].filename) in WrittenPaths(dir, atts);
      AfterWritesElsewhere(files, dir, init, path);
    }
  }

  lemma JoinInjective(dir: string, a: string, b: string)
    requires Join(dir, a) == Join(dir, b)
    ensures a == b
  {
    assert a == Join(dir, a)[|dir| + 1..];
    assert b == Join(dir, b)[|dir| + 1..];
  }

  /** Writing the same attachments a second time changes nothing. */
  lemma AfterWritesIdempotent(files: map<string, seq<byte>>, dir: string, atts: seq<Attachment>)
    ensures AfterWrites(AfterWrites(files, dir, atts), dir, atts) == AfterWrites(files, dir, atts)
  {
    var once := AfterWrites(files, dir, atts);
    var twice := AfterWrites(once, dir, atts);
    forall p | p in twice ensures twice[p] == once[p] {
      if p in WrittenPaths(dir, atts) {
        var k :| 0 <= k < |atts| && p == Join(dir, atts[k].filename);
        var name := atts[k].filename;
        assert LastIndexOf(atts, name) >= k;
        AfterWritesLastWins(files, dir, atts, name);
        AfterWritesLastWins(once, dir, atts, name);
      } else {
        AfterWritesElsewhere(once, dir, atts, p);
      }
    }
  }

  // ---------------------------------------------------------------------------
  // The file system

  class FileSystem {
    var dirs: set<string>
    var files: map<string, seq<byte>>

    /** Every file lies inside a directory that exists. */
    ghost predicate Valid()
      reads this
    {
      forall p :: p in files ==> exists d :: d in dirs && IsInDir(p, d)
    }

    constructor (dirs: set<string>, files: map<string, seq<byte>>)
      requires forall p :: p in files ==> exists d :: d in dirs && IsInDir(p, d)
      ensures Valid()
      ensures this.dirs == dirs && this.files == files
    {
      this.dirs := dirs;
      this.files := files;
    }

    /** `os.makedirs(path)`: `existed` stands for the `FileExistsError` it raises. */
    method MakeDirs(path: string) returns (existed: bool)
      requires Valid()
      modifies this
      ensures Valid()
      ensures existed == (path in old(dirs))
      ensures dirs == old(dirs) + {path} && files == old(files)
    {
      existed := path in dirs;
      dirs := dirs + {path};
    }

    /** Open `dir/name` for binary writing, write `content`, close it. */
    method WriteFile(dir: string, name: string, content: seq<byte>)
      requires Valid() && dir in dirs
      modifies this
      ensures Valid()
      ensures files == old(files)[Join(dir, name) := content] && dirs == old(dirs)
    {
      files := files[Join(dir, name) := content];
      assert IsInDir(Join(dir, name), dir);
    }
  }

  /**
   * The download part of `fetch_jira_issue(issue_id, override_flag)` for an
   * issue already fetched, with `root` the configured download path.
   */
  method FetchIssue(fs: FileSystem, root: string, issueId: string, issue: Issue, overrideFlag: bool)
    returns (outcome: FetchOutcome)
    requires fs.Valid()
    modifies fs
    ensures fs.Valid()
    ensures var dir := DownloadDir(root, issueId, issue.summary);
      outcome ==
        if |issue.attachments| == 0 then NoAttachments
        else if dir in old(fs.dirs) && !overrideFlag then DirectoryExists
        else Downloaded(dir in old(fs.dirs))
    ensures !outcome.Downloaded? ==> fs.dirs == old(fs.dirs) && fs.files == old(fs.files)
    ensures outcome.Downloaded? ==>
      var dir := DownloadDir(root, issueId, issue.summary);
      fs.dirs == old(fs.dirs) + {dir} &&
      fs.files == AfterWrites(old(fs.files), dir, issue.attachments)
  {
    var dir := DownloadDir(root, issueId, issue.summary);
    var atts := issue.attachments;
    if |atts| == 0 {
      return NoAttachments;
    }
    var existed := fs.MakeDirs(dir);
    if existed && !overrideFlag {
      return DirectoryExists;
    }
    for i := 0 to |atts|
      invariant fs.Valid()
      invariant fs.dirs == old(fs.dirs) + {dir}
      invariant fs.files == AfterWrites(old(fs.files), dir, atts[..i])
    {
      AfterWritesStep(old(fs.files), dir, atts, i);
      fs.WriteFile(dir, atts[i].filename, atts[i].content);
    }
    assert atts[..|atts|] == atts;
    outcome := Downloaded(existed);
  }

  // ---------------------------------------------------------------------------
  // Scenarios

  /**
   * Re-fetching an issue that was just downloaded: without override it is
   * refused and nothing changes; with override it succeeds and, the files
   * being rewritten with the same contents, leaves the same state.
   */
  method Refetch(fs: FileSystem, root: string, issueId: string, issue: Issue, overrideFlag: bool)
    returns (second: FetchOutcome)
    requires fs.Valid() && |issue.attachments| > 0
    modifies fs
    ensures fs.Valid()
    ensures second == if overrideFlag then Downloaded(true) else DirectoryExists
    ensures var dir := DownloadDir(root, issueId, issue.summary);
      fs.dirs == old(fs.dirs) + {dir} &&
      fs.files == AfterWrites(old(fs.files), dir, issue.attachments)
  {
    var first := FetchIssue(fs, root, issueId, issue, true);
    second := FetchIssue(fs, root, issueId, issue, overrideFlag);
    AfterWritesIdempotent(old(fs.files), DownloadDir(root, issueId, issue.summary), issue.attachments);
  }

  /**
   * The end-to-end example: issue ABC-1 titled "Fix Login Bug!" with one
   * 100-byte `log.txt`, fetched without override into a fresh directory.
   */
  method FetchExample(fs: FileSystem, root: string, log: seq<byte>) returns (outcome: FetchOutcome)
    requires fs.Valid() && |log| == 100
    requires PathJoin(root, "ABC-1_fix-login-bug") !in fs.dirs
    modifies fs
    ensures outcome == Downloaded(false)
    ensures PathJoin(root, "ABC-1_fix-login-bug") in fs.dirs
    ensures Join(PathJoin(root, "ABC-1_fix-login-bug"), "log.txt") in fs.files
    ensures fs.files[Join(PathJoin(root, "ABC-1_fix-login-bug"), "log.txt")] == log
    ensures |fs.files[Join(PathJoin(root, "ABC-1_fix-login-bug"), "log.txt")]| == 100
  {
    var summary := "Fix Login Bug!";
    var issue := Issue(summary, [Attachment("log.txt", log)]);
    DirNameExample("ABC-1", summary);
    outcome := FetchIssue(fs, root, "ABC-1", issue, false);
    AfterWritesLastWins(old(fs.files), PathJoin(root, "ABC-1_fix-login-bug"), issue.attachments, "log.txt");
  }
}
