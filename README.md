# jira-downloader core, modelled in Dafny

jira-downloader is a command-line script. It fetches one JIRA issue and saves
all of that issue's attachments into a directory named after the issue. This
project models the three parts of `main.py` that can be stated and checked:

- **`slugify`** (`slugify.dfy`, module `Slug`) turns an issue summary into a
  directory-name fragment. It has four steps, in order:
  1. delete every character outside `[\w\s-]`;
  2. strip surrounding whitespace;
  3. lower-case;
  4. replace each run of `-`/whitespace with one `-`.

  The result is proved to be a *slug*: only `a`-`z`, `0`-`9`, `_` and `-`,
  with no hyphen directly after another. Every word character of the summary
  survives, lower-cased and in the same order. Slugifying a slug changes
  nothing.
- **`str2bool`** (`str2bool.dfy`, module `BoolFlag`) is a case-insensitive
  boolean parser. It returns `Ok(true)`, `Ok(false)` or
  `Err("Boolean value expected.")`. Each outcome is characterised by an
  independent letter-by-letter case-insensitive comparison against the two
  word lists. No string matches both lists.
- **The download step of `fetch_jira_issue`** (`fetch.dfy`, module
  `Download`). The file system is a `FileSystem` object holding a set of
  directories and a map from paths to byte contents. `FetchIssue` is a method
  over that object:
  - It computes `<root>/<issue id>_<slug>`.
  - It does nothing when the issue has no attachments.
  - It aborts with nothing changed when the directory exists and the override
    flag is off.
  - Otherwise it writes each attachment to `<dir>/<filename>` in a loop.

  Its postcondition gives the exact new state through the function
  `AfterWrites`. Lemmas about `AfterWrites` prove three things:
  - when names repeat, the last attachment wins;
  - no other path changes;
  - writing the same attachments again is idempotent, which is what makes a
    forced re-download safe.

`ascii.dfy` (module `Ascii`) holds the ASCII character classes (`\w`, `\s`)
and `str.lower()`, which the other modules share.

Assumptions of the model:
- The JIRA issue (summary and attachment list with contents) is an input
  value. The network is not modelled.
- The download root is a parameter (`DOWNLOAD_PATH` comes from the
  configuration module, which is not part of this model).
- `os.path.join(root, name)` for the download directory is modelled with
  POSIX semantics (`PathJoin`): an absolute `name` replaces the root, an empty
  root or one ending in `/` gets no extra `/`, and otherwise a `/` is put
  between the two. The name is absolute only when the issue key starts with
  `/`, since the key is its first part. Whatever the root, the resulting
  directory is non-empty and does not end in `/` (`DownloadDir`).
- Joining an attachment filename to that directory is `dir + "/" + name`
  (`Join`), which is what `os.path.join` gives for such a directory and a
  relative filename.
- "The directory exists" means the path is in the directory set.
- The `FileSystem` invariant `Valid()` states that every file lies inside an
  existing directory. `FetchIssue` preserves it. "Inside `dir`" means the path
  starts with `dir + "/"`, so a file directly in the working directory (a path
  without `/`, such as `notes.txt`) is outside every directory and a file
  system holding one is not `Valid()`. With an empty root the download
  directory itself sits in the working directory, which is fine: only files
  are constrained, and every file the download writes is `dir/<filename>`.

Two points of the code's behaviour that are easy to misread:
- `slugify` strips only whitespace, not hyphens, so a slug may start or end
  with `-`: `"-x-"` stays `"-x-"` (`SlugifyKeepsOuterHyphens`). It also keeps
  `_`, which is a word character, so a slug is not purely alphanumeric.
- `fetch_jira_issue` returns nothing. The model returns a `FetchOutcome` tag
  saying which of the three branches ran, in place of the message each branch
  prints.

## Model

| member | source | states |
|---|---|---|
| `Ascii.ToLower` | main.py:12 | `lower()` on one character: the result is never upper-case, and word characters, whitespace and `-` stay in their class |
| `Ascii.Lower` | main.py:12 | `lower()` on a string: the result equals the input ignoring case and holds no upper-case letter |
| `Slug.RemoveDisallowed` | main.py:12 | the first substitution leaves only `[\w\s-]` characters, and a string made only of those passes through unchanged |
| `Slug.StripLeading` | main.py:12 | `strip()`, left half: the result does not start with whitespace (and is a suffix of the input, `StripLeadingIsSuffix`) |
| `Slug.StripTrailing` | main.py:12 | `strip()`, right half: the result does not end with whitespace (and is a prefix of the input, `StripTrailingIsPrefix`) |
| `Slug.Strip` | main.py:12 | `strip()`: the result is no longer than the input and neither starts nor ends with whitespace |
| `Slug.DropSeparators` | main.py:13 | a separator run is consumed: the rest is no longer than the input and does not start with `-` or whitespace |
| `Slug.CollapseSeparatorRun` | main.py:13 | any non-empty run of `-`/whitespace followed by a non-separator becomes exactly one `-` |
| `Slug.CollapseThreeWords` | main.py:13 | three separator-free words with single spaces between them come out joined by single hyphens |
| `Slug.CollapseSeparators` | main.py:13 | the second substitution: a separator run becomes one leading `-`, no hyphen follows a hyphen, and characters that are slug characters or separators give only slug characters |
| `Slug.Slugify` | main.py:11-14 | every result of `slugify` is a slug: only lower-case letters, digits, `_` and `-`, with no two adjacent hyphens |
| `Slug.SlugifyCharacters` | main.py:12-13 | no whitespace, no upper-case letter and no punctuation other than `-` survives |
| `Slug.SlugifyKeepsWords` | main.py:11-14 | the word characters of the slug are those of the summary, lower-cased, in the same order |
| `Slug.SlugifyOfSlug` | main.py:11-14 | a slug is left unchanged by each of the four steps (deleting disallowed characters, `strip()`, `lower()`, collapsing separators) and so by `slugify` |
| `Slug.SlugifyIdempotent` | main.py:11-14 | `slugify(slugify(s)) == slugify(s)` |
| `Slug.SlugifyEmpty` | main.py:11-14 | the empty summary gives the empty slug |
| `Slug.SlugifyFixLoginBug` | main.py:11-14 | `"Fix Login Bug!"` gives `"fix-login-bug"` |
| `Slug.SlugifyKeepsOuterHyphens` | main.py:12-13 | hyphens at either end survive: `"-x-"` gives `"-x-"` |
| `Slug.CollapseWordPrefix` | main.py:13 | a run without separators passes through the collapsing step unchanged |
| `Slug.RemoveDisallowedAppend` | main.py:12 | deleting disallowed characters works piecewise over concatenation |
| `Slug.RemoveDisallowedDrops` | main.py:12 | a character outside `[\w\s-]` is deleted, not replaced: the text on both sides closes up |
| `Slug.RemoveDisallowedKeeps` | main.py:12 | a character in `[\w\s-]` stays in its place between the filtered text before and after it |
| `Slug.SlugifyIgnoresDisallowed` | main.py:11-14 | inserting a character outside `[\w\s-]` anywhere in a summary does not change its slug |
| `Slug.StripLeadingRun` | main.py:12 | the left half of `strip()` removes exactly the leading whitespace run and nothing after it |
| `Slug.StripTrailingRun` | main.py:12 | the right half of `strip()` removes exactly the trailing whitespace run and nothing before it |
| `Slug.StripRuns` | main.py:12 | `strip()` on whitespace, a text neither starting nor ending with whitespace, then whitespace, gives exactly that text; `-` and every other character stay |
| `BoolFlag.Str2Bool` | main.py:23-29 | `str2bool` returns true exactly when the string equals yes/true/t/y/1 ignoring case, false exactly when it equals no/false/f/n/0 ignoring case, and fails with "Boolean value expected." exactly on every other string |
| `BoolFlag.NoStringIsBoth` | main.py:24-27 | no string spells both a true and a false word, so the order of the two tests does not matter |
| `BoolFlag.SpellsOneOfLower` | main.py:24-26 | for a lower-case word list, testing membership of `lower(v)` is the same as comparing `v` letter by letter ignoring case |
| `BoolFlag.Str2BoolExamples` | main.py:23-29 | `YES` gives true, `False` and `0` give false, `maybe` and the empty string fail |
| `Download.DirName` | main.py:40-41 | the directory name starts with the issue key and `_`, the rest is a slug, and it never ends in `/` |
| `Download.PathJoin` | main.py:43 | `os.path.join(a, b)`: an absolute `b` is the whole result; `b` is always the tail of the result; for a relative `b` the head is `a`, followed by `/` unless `a` is empty or already ends in `/` |
| `Download.DownloadDir` | main.py:43 | for any root, the download directory is non-empty and does not end in `/` |
| `Download.DownloadDirUnderRoot` | main.py:40-43 | the download directory ends with the directory name; for a key not starting with `/` it is the name itself under an empty root, `root + name` under a root ending in `/`, and `root/name` otherwise |
| `Download.Join` | main.py:61 | the file path lies inside the directory and ends with the filename; for the directories the download step builds and a relative filename it equals `os.path.join` |
| `Download.DirNameShape` | main.py:40-41 | the directory name is the issue key, then `_`, then the slug of the summary, and that tail is a slug |
| `Download.DirNameIsOneComponent` | main.py:40-43 | a key without `/` gives a directory name without `/`, so the directory is a direct child of the root |
| `Download.DirNameExample` | main.py:40-41 | issue `ABC-1` titled `Fix Login Bug!` gets the directory `ABC-1_fix-login-bug` |
| `Download.LastIndexOf` | main.py:59-64 | the index it returns is that of an attachment with the given name, and no later attachment has that name |
| `Download.AfterWritesLastWins` | main.py:59-64 | after the loop, each attachment path holds the content of the last attachment with that filename |
| `Download.AfterWritesElsewhere` | main.py:59-64 | a path that no attachment is written to keeps its content, or stays absent |
| `Download.AfterWrites` | main.py:59-64 | the paths after the loop are exactly the old paths plus one path per attachment filename |
| `Download.AfterWritesIdempotent` | main.py:59-64 | writing the same attachments a second time leaves the files as they were after the first time |
| `Download.FileSystem.MakeDirs` | main.py:49-52 | `os.makedirs` reports whether the path already existed (the `FileExistsError`), afterwards the directory exists, and no file changes |
| `Download.FileSystem.WriteFile` | main.py:61-64 | opening for binary write, writing and closing sets that one path to the content and changes nothing else |
| `Download.FetchIssue` | main.py:36-64 | no attachments, or an existing directory with override off: the state is unchanged. Otherwise the directory exists and the files are exactly the old files updated by every attachment in order. The outcome tells the three branches apart, and the file-system invariant is kept |
| `Download.Refetch` | main.py:49-64 | downloading an issue and then fetching it again: the second fetch aborts without override and rewrites identical contents with override. Either way the final state is that of a single download |
| `Download.FetchExample` | main.py:40-64 | issue `ABC-1` titled `Fix Login Bug!` with one 100-byte `log.txt`, fetched without override into a fresh directory: the outcome is a download into a new directory, and `os.path.join(root, "ABC-1_fix-login-bug")/log.txt` holds exactly that content |

## Left out

- The JIRA client and network calls (main.py:32-33, 37, 63): building the authenticated client and fetching the issue and the attachment bytes are foreign-library I/O. The issue's summary and attachment contents are inputs instead.
- The `config` module, which supplies `ENDPOINT`, `USERNAME`, `PASSWORD` and `DOWNLOAD_PATH`, is not part of this model. The download root is a parameter.
- `sizeof_fmt` (main.py:16-21): it divides floating-point numbers and formats them with `%3.1f`. Its only use is in a log line, so `Attachment` carries no size.
- Every `print` (main.py:39, 46, 54, 56, 60) is output only. `FetchOutcome` records which branch ran instead.
- `fetch_jira_issue`'s default `override_flag=True` (main.py:36): the model's `FetchIssue` always takes the flag explicitly, so the default has no counterpart; `main` always passes the flag.
- `main` and its option parsing (main.py:68-76) are argument-parsing glue. The `-f` option takes a string argument and defaults to `True`. Any non-empty value is therefore truthy, including `"False"`, and `str2bool` is never applied to it. The model takes the override flag as a plain boolean.
- The `str2bool` error path names `argparse.ArgumentTypeError`, but `argparse` is never imported. The model records only that the call fails (`Err`), not which exception is raised.
- Unicode: `\w`, `\s` and `lower()` are modelled over ASCII only. `\s` is tab through carriage return (9-13), the characters 28-31 and space, as Python counts them. Non-ASCII letters and digits, which Python's `\w` would keep, are treated as characters to delete. Non-ASCII characters are never lower-cased.
- Operating-system semantics are not modelled:
  - `os.makedirs` creating missing parent directories (only the target directory is added);
  - an attachment filename that is absolute or contains `/` (`Join` puts every file directly inside the download directory, where `os.path.join` would discard the directory or reach into a subdirectory);
  - a regular file already at the directory path;
  - open, write or permission failures.
- `Download.FileSystem.WriteFile`: requires the target directory to exist. This models only the successful write. A failing `open` raises an exception that the source does not handle.
