# Obsidian to Hugo sync, modelled in Dafny

The repository publishes Markdown notes from an Obsidian vault as posts of a Hugo site.
Three Python scripts make up its core, and each has its own Dafny module:

- `scripts/sync-obsidian-blog.py` is the *bundle* sync (module `BlogSync`):
  - A post is a `.md` file in `<blog>/posts` whose name does not start with `_`.
  - Images are looked for in three places, in order: beside the post, in the vault's `attaches` folder under the same relative path, and there under their bare name.
  - An image is copied to `static/images/<stem>_<timestamp>_<name>`.
  - The post is written to `content/posts/<stem>/index.md`.
  - `git_push` stages the changes, commits them and pushes them to `origin master`.
  - A `--watch` loop syncs posts not yet synced, or whose modification time grew since their last successful sync.
- `scripts/obsidian-sync.py` is the *flat* sync (module `VaultSync`):
  - A post is any `.md` file of the vault, searched recursively, that has front matter, or a `#blog`/`#post`/`#publish` tag in any letter case, or `blog` anywhere in its path.
  - Images are looked up where the reference points and copied as `<stem>_<name>`.
  - A post without front matter gets a generated YAML block.
  - The post goes to `content/posts/<file name>`.
  - `auto_commit` stages and commits, with a fixed trailer on the message.
- `scripts/watch-obsidian.py` is the file-system event handler (module `Watcher`):
  - A created or modified `.md` file runs the flat sync script on that one file.
  - A path accepted less than two seconds ago is suppressed.

Shared modules:

| module | what it defines |
|---|---|
| `ImageRefs` | The two image patterns, `![alt](path)` and `![[path]]`, as a lexer (`StandardAt`, `EmbedAt`). Also `re.finditer` (`FindAll`) over them. |
| `Rewriting` | The loop both `process_images` functions share. Every match is taken from the original text. A resolved one is copied, and every occurrence of its matched text in the text built so far is replaced by `![alt](/images/<name>)`. The loop is generic in how a reference is resolved (`Resolver`) and how its copy is named (`Namer`). |
| `Text` | String operations: `str.replace`, `split`, `lower` and `title`. |
| `Paths` | A `pathlib` subset: `name`, `parent`, `stem`, `suffix`, `/`. |
| `Disk` | The disk as data (`Files`): file texts, present paths, and paths whose processing raises. |
| `Git` | The git commands run, as a trace of calls. |
| `Wrappers` | `Option`, `Map`, `Filter` and `Somes`. |

How effects are modelled:

- Effects become values. A copy is a `Copy` entry in a log, and a git call is a `GitCall` entry in a trace.
- Reading the disk is a lookup in `Disk.Files`.
- Clocks are parameters:
  - `BlogSync.Clock` gives the timestamp read for each image;
  - `VaultSync.Dates` gives the date stamped into new front matter;
  - `now` is the watcher's event time.
- `yaml.dump` is a parameter (`VaultSync.Dump`); its text is not modelled.

Three behaviours of the code are worth knowing, and the model states them as the code has them:

- **Copy names are not unique across folders.** The bundle script comments its naming "Create a unique image name" (`scripts/sync-obsidian-blog.py:81`). The flat script, though, names a copy `<stem>_<image name>` (`scripts/obsidian-sync.py:95`), with no folder and no timestamp. So posts with the same stem in different folders overwrite each other's copies when their images share a name (`VaultSync.NamesIgnoreFolders`).
- **A failed copy aborts the whole post.** Any exception in `sync_post` returns `None` (`scripts/obsidian-sync.py:151-153`, `scripts/sync-obsidian-blog.py:119-121`). The model has this as the `failing` set of `Disk.Files`.
- **The commit trailer is mis-encoded.** The flat script's commit trailer is kept exactly as the file spells it. It holds the UTF-8 bytes of a robot emoji decoded as Windows-1252 (`VaultSync.Trailer`, `scripts/obsidian-sync.py:186`).

Two more behaviours follow from the clocks:

- **The bundle script writes different text at a different time.** Each copy's name carries a timestamp, so two runs at different times rewrite the same post differently (`BlogSync.ClockChangesOutput`).
- **The flat script stamps new front matter with the date.** Every run re-writes a post without front matter with a new `date` (`scripts/obsidian-sync.py:118`), so the text written differs whenever the date changes the YAML block (`VaultSync.DateChangesOutput`). A post that already has front matter is written the same at any date (`VaultSync.DateIrrelevantWithFrontMatter`).

## Model

| member | source | states |
|---|---|---|
| ImageRefs.StandardAt | scripts/obsidian-sync.py:67 | The standard pattern `!\[([^\]]*)\]\(([^)]+)\)` anchored at a position: the alt text runs to the first `]`, and the target is non-empty and runs to the first `)`. |
| ImageRefs.EmbedAt | scripts/obsidian-sync.py:68 | The embed pattern `!\[\[([^\]]+)\]\]` anchored at a position: a non-empty path up to the first `]`, which must start `]]`. |
| ImageRefs.FindAll | scripts/obsidian-sync.py:74 | `re.finditer`: matches from left to right, the scan resuming after each match's end. |
| ImageRefs.Refs | scripts/obsidian-sync.py:73-75 | All standard matches of the original text, then all embed matches, as the two pattern loops run. |
| ImageRefs.Render | scripts/obsidian-sync.py:66-69 | A reference is written starting with `!` and takes at least five characters. |
| ImageRefs.PublishedIsStandard | scripts/obsidian-sync.py:101-102 | The replacement written is itself a standard reference whose target is `/images/<name>`. |
| ImageRefs.PublishedInjective | scripts/sync-obsidian-blog.py:90-91 | Distinct image names are published as distinct references. |
| ImageRefs.MatchAtAdvances | scripts/obsidian-sync.py:66-69 | A match found at a position starts there and ends after it, within the text. |
| ImageRefs.MatchAtSound | scripts/obsidian-sync.py:66-69 | A match is a well-formed reference of its form: only characters its groups admit, written exactly where reported. |
| ImageRefs.MatchAtComplete | scripts/obsidian-sync.py:66-69 | Conversely, a well-formed reference written at a position is exactly the match found there. |
| ImageRefs.FindAllSound | scripts/obsidian-sync.py:74 | Every match `finditer` reports is a match of the pattern at its own start. |
| ImageRefs.FindAllBounds | scripts/obsidian-sync.py:74 | Every reported match lies within the text, after the scan's start. |
| ImageRefs.FindAllOrdered | scripts/obsidian-sync.py:74 | The matches come in order of position and do not overlap. |
| ImageRefs.FindAllComplete | scripts/obsidian-sync.py:74 | Wherever the pattern matches, some reported match covers that position. |
| ImageRefs.FindAllEmpty | scripts/obsidian-sync.py:74 | `finditer` yields nothing exactly when the pattern matches nowhere. |
| ImageRefs.RefsSound | scripts/obsidian-sync.py:73-75 | Every reference of both passes is well formed and is the text written at its span. |
| ImageRefs.NoBangBracketNoRefs | scripts/obsidian-sync.py:66-69 | A text without `![` holds no reference. |
| ImageRefs.NoParenNoStandard | scripts/obsidian-sync.py:67 | A text without `(` holds no standard reference. |
| ImageRefs.LoneEmbedRefs | scripts/obsidian-sync.py:68 | A text that is one embed, with no `(` in its path, holds just that reference. |
| Rewriting.AltText | scripts/obsidian-sync.py:76-81 | The alt text of the replacement: the bracket text of a standard reference, the path's stem for an embed. |
| Rewriting.RewriteAll | scripts/obsidian-sync.py:71-107 | The whole loop: each resolved reference's matched text is replaced in the text so far, and its copy logged. |
| Rewriting.EmbedAltText | scripts/obsidian-sync.py:76-78 | An embed's alt text is its path's last component without the suffix. |
| Rewriting.ApplyEditsSnoc | scripts/obsidian-sync.py:104 | One more replacement acts on the result of those before it. |
| Rewriting.RewriteStep | scripts/obsidian-sync.py:93-104 | Each iteration either replaces every occurrence of the matched text and logs one copy, or changes nothing. |
| Rewriting.LoopBody | scripts/obsidian-sync.py:73-105 | Each iteration of the loop lands in the next state of the loop function. |
| Rewriting.ResolvedReplacesAll | scripts/obsidian-sync.py:104 | A resolved reference splits the text so far at its matched text and joins the pieces with the new reference: the text between occurrences is kept. |
| Rewriting.LaterDuplicateKeepsText | scripts/obsidian-sync.py:104 | A later reference whose matched text no longer occurs in the text so far changes no text, though its copy is still made. |
| Rewriting.LaterDuplicateCanChangeText | scripts/obsidian-sync.py:104 | The hypothesis above is needed: when the copy's name contains the matched text, a second identical reference replaces again and the text changes. |
| Rewriting.NothingResolvedUnchanged | scripts/obsidian-sync.py:71-107 | When no reference resolves, the text comes back as given and nothing is copied. |
| Rewriting.CopiesSound | scripts/obsidian-sync.py:93-98 | Every copy belongs to an earlier reference that resolved, under the name given for it. |
| Rewriting.CopiesOrdered | scripts/obsidian-sync.py:73-75 | Copies are made in reference order, at most one per reference. |
| Rewriting.CopiesCover | scripts/obsidian-sync.py:93-98 | A reference is copied exactly when it resolves. |
| Rewriting.EditsKeepPrefix | scripts/obsidian-sync.py:104 | Replacements whose pattern starts with a character the prefix lacks keep that prefix. |
| Rewriting.RewriteKeepsPrefix | scripts/obsidian-sync.py:104 | A leading text without `!` survives the whole loop. |
| Rewriting.WholeReferenceRewritten | scripts/obsidian-sync.py:101-104 | A text that is one resolved reference becomes exactly its published form, with one copy. |
| Text.ReplaceAll | scripts/obsidian-sync.py:104 | `str.replace`: scanning from the left, every non-overlapping occurrence is replaced. |
| Text.TitleCase | scripts/obsidian-sync.py:117 | `str.title`: the same length; a letter is upper case exactly at the start of a word and keeps its letter; other characters are kept. |
| Text.TitleCaseIdempotent | scripts/obsidian-sync.py:117 | Title-casing twice gives what title-casing once gives. |
| Text.ReplaceCharPointwise | scripts/obsidian-sync.py:117 | Replacing one character by another changes exactly the positions that held it. |
| Text.ReplaceAllIsJoinOfSplit | scripts/obsidian-sync.py:104 | `replace` is `split` on the pattern, then `join` with the replacement. |
| Text.ParseNatToString | scripts/obsidian-sync.py:184 | The decimal form of a count reads back as that count. |
| Paths.Name | scripts/sync-obsidian-blog.py:72 | `Path.name`: the text after the last `/`. |
| Paths.Parent | scripts/obsidian-sync.py:63 | `Path.parent`: the text before the last `/`, the root for a top-level path and `.` (the empty string) for none. |
| Paths.Stem | scripts/sync-obsidian-blog.py:59 | `Path.stem`: the name without its suffix. |
| Paths.Suffix | scripts/watch-obsidian.py:30 | `Path.suffix`: from the name's last `.`, when that is neither its first nor its last character. |
| BlogSync.Discover | scripts/sync-obsidian-blog.py:29-40 | The posts directory's `.md` entries not starting with `_`, joined to the directory, in listing order. |
| BlogSync.DiscoverExactly | scripts/sync-obsidian-blog.py:29-40 | A path is discovered exactly when it is a `.md` entry of the posts directory not starting with `_`. |
| BlogSync.FindBlogPosts | scripts/sync-obsidian-blog.py:29-40 | The loop returns the discovered posts in listing order, and none when the directory is missing. |
| BlogSync.IsSkipped | scripts/sync-obsidian-blog.py:65 | Targets starting with `http://`, `https://` or `/` are skipped. |
| BlogSync.Candidates | scripts/sync-obsidian-blog.py:69-73 | The three candidate paths, in the order they are tried. |
| BlogSync.FirstExisting | scripts/sync-obsidian-blog.py:75-79 | The result is a present candidate with no present candidate before it; it is `None` exactly when no candidate is present. |
| BlogSync.ResolveImage | scripts/sync-obsidian-blog.py:75-79 | The loop with `break` finds the first existing candidate. |
| BlogSync.ResolveReference | scripts/sync-obsidian-blog.py:64-79 | A skipped path resolves to nothing; any other resolves to its first existing candidate. |
| BlogSync.ProcessImages | scripts/sync-obsidian-blog.py:42-98 | The loop's text and copies are those of the rewrite, with the bundle script's resolver and namer. |
| BlogSync.BlogCopiesSound | scripts/sync-obsidian-blog.py:64-95 | Each copy is of a non-skipped reference: the first existing candidate, present, named `<stem>_<timestamp>_<name>`. |
| BlogSync.BlogCopiesCover | scripts/sync-obsidian-blog.py:64-95 | A reference is copied exactly when it resolves. |
| BlogSync.SkippedNeverCopied | scripts/sync-obsidian-blog.py:64-66 | A web URL or a site-absolute path is never copied. |
| BlogSync.ImageName | scripts/sync-obsidian-blog.py:83-84 | `<stem>_<timestamp>_<image name>`. |
| BlogSync.ImageNameDistinguishesStamps | scripts/sync-obsidian-blog.py:83-84 | Different timestamps give different names for the same post and image. |
| BlogSync.StemInImageName | scripts/sync-obsidian-blog.py:84 | Whatever the post's stem contains, its copies' names contain too. |
| BlogSync.ResolvesBesidePost | scripts/sync-obsidian-blog.py:69-79 | An image beside the post wins over the `attaches` folder. |
| BlogSync.ClockChangesOutput | scripts/sync-obsidian-blog.py:83-95 | Two runs with different clocks write different text for the same one-embed post. |
| BlogSync.PostDestination | scripts/sync-obsidian-blog.py:109-113 | `<content>/posts/<stem>/index.md`. |
| BlogSync.PostDestinationLayout | scripts/sync-obsidian-blog.py:109-113 | The destination is `index.md` in a directory named after the post's stem. |
| BlogSync.SyncPost | scripts/sync-obsidian-blog.py:100-121 | Succeeds exactly when the post is readable and nothing raises; then it gives the bundle destination and the rewritten text and copies. |
| BlogSync.SyncAll | scripts/sync-obsidian-blog.py:123-142 | The successful results for the discovered posts, in order; none when no post is found. |
| BlogSync.SyncAllResults | scripts/sync-obsidian-blog.py:137-140 | Every result is the bundle of a given post that was readable and did not fail. |
| BlogSync.SyncAllKeepsAll | scripts/sync-obsidian-blog.py:137-140 | When every post syncs, none is lost. |
| BlogSync.CommitMessage | scripts/sync-obsidian-blog.py:169-174 | The default message: the parent directory's name for one file, otherwise the count. |
| BlogSync.SinglePostMessage | scripts/sync-obsidian-blog.py:169-172 | A single synced post's message names its stem, the bundle directory. |
| BlogSync.PluralMessageCount | scripts/sync-obsidian-blog.py:173-174 | Any other message carries the number of synced posts, which parses back from it. |
| BlogSync.GitPush | scripts/sync-obsidian-blog.py:144-191 | Nothing runs without synced files. The calls are a prefix of rev-parse, add, status, commit, push. The commit runs exactly when the earlier steps pass and status shows changes. The result is true exactly when every step succeeds. |
| BlogSync.WatchPass | scripts/sync-obsidian-blog.py:246-256 | One polling pass computes the reported posts and the new modification-time record. |
| BlogSync.PassLeavesOthers | scripts/sync-obsidian-blog.py:249-256 | A post the pass does not see keeps its recorded time. |
| BlogSync.PassRecords | scripts/sync-obsidian-blog.py:249-256 | A due post that synced records its modification time; any other keeps its entry. |
| BlogSync.SecondPassRetriesFailures | scripts/sync-obsidian-blog.py:245-256 | With nothing changed, the next pass attempts exactly the posts that were due and failed. |
| BlogSync.PassSynced | scripts/sync-obsidian-blog.py:249-256 | The posts a pass reports are exactly the results of due posts that synced. |
| VaultSync.IsBlogPost | scripts/obsidian-sync.py:39-59 | Front matter, a tag, or `blog` in the lower-cased path, on a readable file; an unreadable file is no post. |
| VaultSync.SearchIgnoresCase | scripts/obsidian-sync.py:49 | Searching the lower-cased text for a lower-case marker finds it exactly when it occurs in any letter case. |
| VaultSync.BlogPostExactly | scripts/obsidian-sync.py:39-59 | A file is a post exactly when it is readable and has front matter, or one tag in any case, or `blog` in its path in any case. |
| VaultSync.TagAnywhere | scripts/obsidian-sync.py:49-50 | A tag in any case anywhere makes a readable file a post. |
| VaultSync.BlogFolderAnyCase | scripts/obsidian-sync.py:53-54 | `blog` in any case anywhere in the path makes a readable file a post. |
| VaultSync.VaultPostsExactly | scripts/obsidian-sync.py:28-37 | A path is discovered exactly when it is listed, ends in `.md` and classifies as a post. |
| VaultSync.Classify | scripts/obsidian-sync.py:33-34 | The name test followed by the classification, that is, the discovery predicate. |
| VaultSync.FindBlogPosts | scripts/obsidian-sync.py:28-37 | The loop returns the discovered posts in listing order. |
| VaultSync.ResolveReference | scripts/obsidian-sync.py:83-93 | A web URL resolves to nothing. An absolute path resolves to itself, a relative one to the path under the post's directory, when present. |
| VaultSync.Resolution | scripts/obsidian-sync.py:84-93 | Web URLs are skipped; an absolute path is used as given, a relative one below the post's folder; it resolves when it exists. |
| VaultSync.ImageName | scripts/obsidian-sync.py:95 | `<stem>_<image name>`. |
| VaultSync.ProcessImages | scripts/obsidian-sync.py:61-107 | The loop's text and copies are those of the rewrite, with the flat script's resolver and namer. |
| VaultSync.VaultCopiesSound | scripts/obsidian-sync.py:87-98 | Each copy is the present image its non-web reference points at, named `<stem>_<name>`. |
| VaultSync.VaultCopiesCover | scripts/obsidian-sync.py:83-98 | A reference is copied exactly when it is not a web URL and its image exists. |
| VaultSync.MissingImagesUnchanged | scripts/obsidian-sync.py:83-107 | A text whose images are all web URLs or missing comes back as given. |
| VaultSync.AbsoluteResolves | scripts/obsidian-sync.py:88-89 | An absolute path that exists resolves to itself. |
| VaultSync.EmbedParts | scripts/obsidian-sync.py:76-78 | An embed's written text, its alt text (the stem) and its copy's name. |
| VaultSync.AbsoluteEmbedCopied | scripts/obsidian-sync.py:88-104 | A one-embed post with an existing absolute path gets that image copied and the reference rewritten. |
| VaultSync.NamesIgnoreFolders | scripts/obsidian-sync.py:95 | Copy names ignore the post's and the image's folders, so same-named pairs collide. |
| VaultSync.StemInImageName | scripts/obsidian-sync.py:95 | Whatever the post's stem contains, its copies' names contain too. |
| VaultSync.Title | scripts/obsidian-sync.py:117 | Dashes and underscores become spaces, then `str.title`. |
| VaultSync.TitleFromStem | scripts/obsidian-sync.py:117 | The title has the stem's length, dashes and underscores become spaces, and letters are title-cased. |
| VaultSync.NewFrontMatter | scripts/obsidian-sync.py:116-123 | The metadata of a new post: its title, the date, not a draft, the author `amlucas0xff`, the category `general`, no tags. |
| VaultSync.ProcessFrontMatter | scripts/obsidian-sync.py:109-128 | The result always has front matter and ends with the text given; it is the text given exactly when that had front matter. |
| VaultSync.FrontMatterAdded | scripts/obsidian-sync.py:116-126 | The new block is `---\n`, the YAML dump of the new metadata, `---\n\n`, then the text. |
| VaultSync.FrontMatterIdempotent | scripts/obsidian-sync.py:109-128 | Processing again, at any date, changes nothing. |
| VaultSync.FrontMatterDependsOnDate | scripts/obsidian-sync.py:116-126 | For a text without front matter, two dates whose YAML dumps differ give different results. |
| VaultSync.PostDestination | scripts/obsidian-sync.py:142 | `<content>/posts/<file name>`. |
| VaultSync.PostDestinationLayout | scripts/obsidian-sync.py:142 | The destination has the source's file name and lies directly in `posts`. |
| VaultSync.SyncPost | scripts/obsidian-sync.py:130-153 | Succeeds exactly when the post is readable and nothing raises. Then it goes to the flat destination with the rewrite's copies, and its text is the front-matter step applied to the image-processed text. |
| VaultSync.RewriteKeepsStart | scripts/obsidian-sync.py:136 | Image processing keeps a start that holds no `!`. |
| VaultSync.RewriteKeepsFrontMatter | scripts/obsidian-sync.py:136-139 | Image processing keeps front matter in place. |
| VaultSync.KeepsExistingFrontMatter | scripts/obsidian-sync.py:130-146 | A post with front matter is written as image processing leaves it, with no second block. |
| VaultSync.DateChangesOutput | scripts/obsidian-sync.py:116-139 | A post whose image-processed text has no front matter is written differently at two dates whose YAML dumps differ. |
| VaultSync.DateIrrelevantWithFrontMatter | scripts/obsidian-sync.py:114-139 | A post with front matter gives the same result at any date. |
| VaultSync.SyncAll | scripts/obsidian-sync.py:155-167 | The successful results for the discovered posts, in order. |
| VaultSync.SyncAllResults | scripts/obsidian-sync.py:155-167 | Every result comes from a post sent in that was readable and did not fail; it is at that post's flat destination and has front matter. |
| VaultSync.SyncAllKeepsAll | scripts/obsidian-sync.py:162-165 | When every discovered post syncs, none is lost. |
| VaultSync.CommitMessage | scripts/obsidian-sync.py:180-186 | The file's name for one file, otherwise the count, followed by the trailer. |
| VaultSync.SinglePostMessage | scripts/obsidian-sync.py:180-186 | A single synced post's message names its file, followed by the trailer. |
| VaultSync.PluralMessageCount | scripts/obsidian-sync.py:183-186 | Any other message carries the count, which parses back from it, before the trailer. |
| VaultSync.AutoCommit | scripts/obsidian-sync.py:169-194 | Nothing runs without synced files. `git add .` runs first, and the commit with the message runs exactly when the add succeeds. |
| Watcher.Accepts | scripts/watch-obsidian.py:25-40 | `should_sync`'s rule: a `.md` path never accepted, or accepted at least the cooldown ago. |
| Watcher.Step | scripts/watch-obsidian.py:64-78 | One event's effect on the record: an accepted file event stamps its path; anything else keeps the record. |
| Watcher.ReplayStep | scripts/watch-obsidian.py:64-78 | Handling one more event is one step on the record kept so far. |
| Watcher.SuppressedKeepsRecord | scripts/watch-obsidian.py:34-37 | An event that runs no sync leaves the record unchanged, so a suppressed event does not extend the window. |
| Watcher.RecordNotBefore | scripts/watch-obsidian.py:34-40 | After a sync, its path stays recorded with a time no earlier than that sync's. |
| Watcher.SyncsApart | scripts/watch-obsidian.py:33-40 | Two syncs of the same path are at least the cooldown apart. |
| Watcher.NeverSyncedUnrecorded | scripts/watch-obsidian.py:35-39 | A path never accepted stays out of the record. |
| Watcher.FirstEventSyncs | scripts/watch-obsidian.py:25-40 | The first file event for a `.md` path always runs a sync. |
| Watcher.OnlyMarkdownSyncs | scripts/watch-obsidian.py:29-31 | Only `.md` paths ever run a sync. |
| Watcher.FileHandler.constructor | scripts/watch-obsidian.py:18-23 | The handler starts with an empty record and a two-second cooldown. |
| Watcher.FileHandler.SyncCommand | scripts/watch-obsidian.py:45-48 | The command is `python3 <script> --single-file <path>`, with `--auto-commit` appended when it is set. |
| Watcher.FileHandler.ShouldSync | scripts/watch-obsidian.py:25-40 | The answer is the cooldown rule on the old record. An accepted path is stamped with the time and every other entry kept; a refused one changes nothing. |
| Watcher.FileHandler.OnEvent | scripts/watch-obsidian.py:64-78 | A directory event runs nothing and changes nothing. A file event runs the sync command exactly when the cooldown rule accepts it. The new record is one replay step. |

## Left out

- File I/O as effect:
  - `read_text`, `write_text`, `exists`, `mkdir`, `glob`, `rglob`, `stat` and `shutil.copy2` are not performed.
  - The disk is the `Disk.Files` value, and a directory listing is a parameter in the order the listing gives.
  - A copy is a log entry, and a written post is the `Synced` value returned.
- Exceptions:
  - Each is modelled through `Option` results, or as a path in the `failing` set of `Disk.Files`, for which `sync_post` raises and returns `None`.
  - Which step raised, and the copies made before it, are not modelled.
- Git and subprocesses:
  - `subprocess.run` of git is a trace of `GitCall`s whose outcomes come from a `Repo` value.
  - The working directory and the output of the commands are not modelled.
  - The watcher's `sync_file` gives the command it would run; running it and printing its output are left out.
- Clocks:
  - `datetime.now()` and `time.time()` are parameters: `BlogSync.Clock`, `VaultSync.Dates`, the watcher's `now`.
  - Times are reals, not floating point.
- `yaml.dump` is an uninterpreted function parameter. The model does not describe the YAML text, only where it goes.
- Case handling:
  - `re.IGNORECASE`, `str.lower` and `str.title` are modelled for ASCII letters only.
  - Non-ASCII letters are treated as non-letters.
- `pathlib` normalisation:
  - Paths are strings split at `/`; `.`, `..` and repeated slashes are not normalised.
  - The watcher's record is keyed by the event's path string.
- Command-line entry points are left out: argument parsing and `main` of all three scripts, including the flat script's single-file mode and its summary printing.
- Watching:
  - The `ObsidianWatcher` class, the watchdog `Observer`, the sleep loops and `KeyboardInterrupt` are left out. They are concurrency and scheduling.
  - The bundle script's `--watch` pass is modelled (`BlogSync.WatchPass`). The optional `git_push` after each pass is not composed with it.
- Printing is left out throughout.
- The unused `content.split('\n')` in `process_front_matter` is left out, because it has no effect.
- Watcher.FileHandler.OnEvent: `on_modified` and `on_created` differ only in what they print, so both are this one method.
- Watcher.FileHandler.constructor: the cooldown is the real `2.0` where the source has the integer `2`. `hugo_content` is not kept, because nothing reads it.
- VaultSync.AutoCommit: gives the calls made rather than `None`. Whether the commit itself succeeds changes nothing the function reports, as in the source.
- Rewriting.LaterDuplicateKeepsText: assumes the matched text no longer occurs. It does not derive that from an earlier identical reference, because in the source that need not hold. The replacement `![alt](/images/<name>)` contains the post's stem, and a stem can spell the matched text (a post named `![](a).md`). The second identical reference then replaces again (`Rewriting.LaterDuplicateCanChangeText`, with `BlogSync.StemInImageName` and `VaultSync.StemInImageName`).
- BlogSync.ImageNameDistinguishesStamps: the timestamp is `%Y%m%d_%H%M%S` (`scripts/sync-obsidian-blog.py:83`), which has one-second resolution. It is modelled as an arbitrary string per reference, so names that collide because two copies fall in the same second are not modelled. Such a second copy overwrites the first.
- BlogSync.WatchPass: the watch loop calls `post.stat()` outside `sync_post`'s `try` (`scripts/sync-obsidian-blog.py:251`). A post that disappears between discovery and `stat` ends the whole loop with an exception. The model takes every modification time as given, so this failure is outside it.
