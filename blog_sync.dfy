/** The bundle-layout sync script: posts are the `.md` files of `<blog>/posts`, images are looked for
    beside the post and in the vault's `attaches` folder, copied under a timestamped name,
    and every post becomes `content/posts/<stem>/index.md`. */
module BlogSync {
  import opened Wrappers
  import opened Text
  import opened Paths
  import opened ImageRefs
  import opened Rewriting
  import opened Disk
  import opened Git

  // ---------------------------------------------------------------------------
  // find_blog_posts

  /** `glob("*.md")` keeps the names ending in `.md`; a leading `_` marks an index file. */
  predicate IsPostName(n: string) {
    EndsWith(n, ".md") && !StartsWith(n, "_")
  }

  function PostsDir(blog: string): string {
    Join(blog, "posts")
  }

  /** The posts among the entries listed in the posts directory, in listing order. */
  function Discover(blog: string, entries: seq<string>): seq<string>
    decreases |entries|
  {
    if entries == [] then []
    else
      var n := entries[|entries| - 1];
      Discover(blog, entries[..|entries| - 1]) + (if IsPostName(n) then [Join(PostsDir(blog), n)] else [])
  }

  /** Discovery returns exactly the posts directory's `.md` entries not starting with `_`. */
  lemma {:induction false} DiscoverExactly(blog: string, entries: seq<string>, p: string)
    ensures p in Discover(blog, entries) <==>
      exists n :: n in entries && IsPostName(n) && p == Join(PostsDir(blog), n)
    decreases |entries|
  {
    if entries != [] {
      var init, n := entries[..|entries| - 1], entries[|entries| - 1];
      DiscoverExactly(blog, init, p);
      assert entries == init + [n];
    }
  }

  /** `listing` is the names in the posts directory, or `None` when it does not exist. */
  method FindBlogPosts(blog: string, listing: Option<seq<string>>) returns (posts: seq<string>)
    ensures posts == if listing.None? then [] else Discover(blog, listing.value)
  {
    posts := [];
    if listing.Some? {
      var entries := listing.value;
      for i := 0 to |entries|
        invariant posts == Discover(blog, entries[..i])
      {
        assert entries[..i + 1][..i] == entries[..i];
        if IsPostName(entries[i]) {
          posts := posts + [Join(PostsDir(blog), entries[i])];
        }
      }
      assert entries[..|entries|] == entries;
    }
  }

  // ---------------------------------------------------------------------------
  // process_images

  /** Web URLs and site-absolute paths are left alone. */
  predicate IsSkipped(path: string) {
    StartsWith(path, "http://") || StartsWith(path, "https://") || StartsWith(path, "/")
  }

  /** Where an image is looked for, in order: beside the post, in the vault's `attaches`
      folder two levels up under the same relative path, and there under its bare name. */
  function Candidates(dir: string, path: string): seq<string> {
    var attaches := Join(Parent(Parent(dir)), "attaches");
    [Join(dir, path), Join(attaches, path), Join(attaches, Name(path))]
  }

  /** The first candidate that present. */
  function FirstExisting(candidates: seq<string>, present: set<string>): (r: Option<string>)
    ensures r.Some? ==> (r.value in present &&
      exists i :: 0 <= i < |candidates| && candidates[i] == r.value &&
        forall j :: 0 <= j < i ==> candidates[j] !in present)
    ensures r.None? <==> forall i :: 0 <= i < |candidates| ==> candidates[i] !in present
    decreases |candidates|
  {
    if candidates == [] then None
    else if candidates[0] in present then Some(candidates[0])
    else
      var r := FirstExisting(candidates[1..], present);
      assert forall i :: 1 <= i < |candidates| ==> candidates[i] == candidates[1..][i - 1];
      r
  }

  /** The `for path in possible_paths: ... break` search. */
  method ResolveImage(candidates: seq<string>, present: set<string>) returns (found: Option<string>)
    ensures found == FirstExisting(candidates, present)
  {
    found := None;
    var i := 0;
    while i < |candidates|
      invariant 0 <= i <= |candidates|
      invariant FirstExisting(candidates, present) == FirstExisting(candidates[i..], present)
    {
      assert candidates[i..][1..] == candidates[i + 1..];
      if candidates[i] in present {
        found := Some(candidates[i]);
        return;
      }
      i := i + 1;
    }
  }

  /** The existing image a reference resolves to, if it is not skipped. */
  function Resolution(sourceFile: string, present: set<string>, r: ImageRef): Option<string> {
    if IsSkipped(r.target) then None
    else FirstExisting(Candidates(Parent(sourceFile), r.target), present)
  }

  /** The skip test, then the candidate search, for one reference. */
  method ResolveReference(sourceFile: string, present: set<string>, r: ImageRef) returns (found: Option<string>)
    ensures found == Resolution(sourceFile, present, r)
  {
    found := None;
    if !IsSkipped(r.target) {
      found := ResolveImage(Candidates(Parent(sourceFile), r.target), present);
    }
  }

  /** `{stem}_{timestamp}_{image name}`. */
  function ImageName(stem: string, stamp: string, image: string): string {
    stem + "_" + stamp + "_" + image
  }

  /** `datetime.now().strftime(...)` as read for reference number `k` of a post. */
  type Clock = (string, nat) -> string

  function BlogResolver(sourceFile: string, present: set<string>): Resolver {
    r => Resolution(sourceFile, present, r)
  }

  function BlogNamer(sourceFile: string, clock: Clock): Namer {
    (k: nat, src: string) => ImageName(Stem(sourceFile), clock(sourceFile, k), Name(src))
  }

  /** What `process_images` computes for `content` read from `sourceFile`. */
  function Rewrite(content: string, sourceFile: string, present: set<string>, clock: Clock): Rewritten {
    RewriteAll(content, BlogResolver(sourceFile, present), BlogNamer(sourceFile, clock))
  }

  /** Both patterns' matches are taken from the original `content` (all standard
      references first), while replacements accumulate in `processed`. */
  method ProcessImages(content: string, sourceFile: string, present: set<string>, clock: Clock)
    returns (processed: string, copies: seq<Copy>)
    ensures Rewritten(processed, copies) == Rewrite(content, sourceFile, present, clock)
  {
    var refs := Refs(content);
    ghost var resolve, namer := BlogResolver(sourceFile, present), BlogNamer(sourceFile, clock);
    processed, copies := content, [];
    for k := 0 to |refs|
      invariant Rewritten(processed, copies) == RewriteFirst(content, refs, k, resolve, namer)
    {
      var r := refs[k];
      var found := ResolveReference(sourceFile, present, r);
      var name := if found.Some? then ImageName(Stem(sourceFile), clock(sourceFile, k), Name(found.value)) else "";
      LoopBody(content, refs, k, resolve, namer, processed, copies, found, name);
      if found.Some? {
        processed := ReplaceAll(processed, Render(r), Published(AltText(r), name));
        copies := copies + [Copy(k, found.value, name)];
      }
    }
  }

  /** Each copy is the image the first existing candidate of its reference names, which
      exists, under `{stem}_{timestamp}_{name}`. */
  lemma BlogCopiesSound(content: string, sourceFile: string, present: set<string>, clock: Clock)
    ensures var refs := Refs(content);
      forall c :: c in Rewrite(content, sourceFile, present, clock).copies ==>
         c.ref < |refs| && !IsSkipped(refs[c.ref].target) && c.source in present
         && FirstExisting(Candidates(Parent(sourceFile), refs[c.ref].target), present) == Some(c.source)
         && c.name == ImageName(Stem(sourceFile), clock(sourceFile, c.ref), Name(c.source))
  {
    var refs := Refs(content);
    var resolve, namer := BlogResolver(sourceFile, present), BlogNamer(sourceFile, clock);
    AllCopiesSound(content, resolve, namer);
    forall c | c in RewriteAll(content, resolve, namer).copies
      ensures !IsSkipped(refs[c.ref].target) && c.source in present
      ensures FirstExisting(Candidates(Parent(sourceFile), refs[c.ref].target), present) == Some(c.source)
      ensures c.name == ImageName(Stem(sourceFile), clock(sourceFile, c.ref), Name(c.source))
    {
      assert resolve(refs[c.ref]) == Resolution(sourceFile, present, refs[c.ref]);
      assert namer(c.ref, c.source) == ImageName(Stem(sourceFile), clock(sourceFile, c.ref), Name(c.source));
    }
  }

  /** A reference is copied exactly when it resolves. */
  lemma BlogCopiesCover(content: string, sourceFile: string, present: set<string>, clock: Clock)
    ensures var refs := Refs(content);
      forall k :: 0 <= k < |refs| ==>
        ((exists c :: c in Rewrite(content, sourceFile, present, clock).copies && c.ref == k)
         <==> Resolution(sourceFile, present, refs[k]).Some?)
  {
    var refs := Refs(content);
    var resolve := BlogResolver(sourceFile, present);
    AllCopiesCover(content, resolve, BlogNamer(sourceFile, clock));
    forall k | 0 <= k < |refs|
      ensures resolve(refs[k]).Some? <==> Resolution(sourceFile, present, refs[k]).Some?
    {
      assert resolve(refs[k]) == Resolution(sourceFile, present, refs[k]);
    }
  }

  /** A reference whose path starts with `http://`, `https://` or `/` is never copied. */
  lemma SkippedNeverCopied(content: string, sourceFile: string, present: set<string>, clock: Clock, k: nat)
    requires k < |Refs(content)| && IsSkipped(Refs(content)[k].target)
    ensures forall c :: c in Rewrite(content, sourceFile, present, clock).copies ==> c.ref != k
  {
    BlogCopiesSound(content, sourceFile, present, clock);
  }

  /** For one post and one image, distinct timestamp strings give distinct destination
      names. */
  lemma ImageNameDistinguishesStamps(stem: string, s1: string, s2: string, image: string)
    requires s1 != s2
    ensures ImageName(stem, s1, image) != ImageName(stem, s2, image)
  {
    var a, b := ImageName(stem, s1, image), ImageName(stem, s2, image);
    if |s1| == |s2| {
      var m := |stem| + 1;
      assert a[m..m + |s1|] == s1;
      assert b[m..m + |s2|] == s2;
    }
  }

  /** A copy's name holds the post's stem, so a stem that spells a reference (a post named
      `![](a).md`) gives the names `LaterDuplicateCanChangeText` needs. */
  lemma StemInImageName(stem: string, stamp: string, image: string, t: string)
    requires Contains(stem, t)
    ensures Contains(ImageName(stem, stamp, image), t)
  {
    ContainsWithin([], stem, "_" + stamp + "_" + image, t);
    assert ImageName(stem, stamp, image) == [] + stem + ("_" + stamp + "_" + image);
  }

  /** An image beside the post is found first. */
  lemma ResolvesBesidePost(sourceFile: string, present: set<string>, r: ImageRef)
    requires !IsSkipped(r.target) && Join(Parent(sourceFile), r.target) in present
    ensures Resolution(sourceFile, present, r) == Some(Join(Parent(sourceFile), r.target))
  {
    assert Candidates(Parent(sourceFile), r.target)[0] == Join(Parent(sourceFile), r.target);
  }

  /** The timestamp makes the output depend on the clock: a post holding just `![[t]]`,
      with the image beside it, is rewritten differently by two runs whose clocks differ. */
  lemma ClockChangesOutput(sourceFile: string, present: set<string>, t: string, c0: Clock, c1: Clock)
    requires t != [] && ']' !in t && '(' !in t && !IsSkipped(t)
    requires Join(Parent(sourceFile), t) in present
    requires c0(sourceFile, 0) != c1(sourceFile, 0)
    ensures Rewrite("![[" + t + "]]", sourceFile, present, c0).text
      != Rewrite("![[" + t + "]]", sourceFile, present, c1).text
  {
    var r := ImageRef(Embed, 0, |t| + 5, [], t);
    LoneEmbedRefs(t);
    ResolvesBesidePost(sourceFile, present, r);
    var src := Join(Parent(sourceFile), t);
    var resolve := BlogResolver(sourceFile, present);
    var n0, n1 := BlogNamer(sourceFile, c0), BlogNamer(sourceFile, c1);
    assert resolve(r) == Some(src);
    WholeReferenceRewritten(r, resolve, n0);
    WholeReferenceRewritten(r, resolve, n1);
    var a, b := n0(0, src), n1(0, src);
    ImageNameDistinguishesStamps(Stem(sourceFile), c0(sourceFile, 0), c1(sourceFile, 0), Name(src));
    if Published(AltText(r), a) == Published(AltText(r), b) {
      PublishedInjective(AltText(r), a, b);
    }
  }

  // ---------------------------------------------------------------------------
  // sync_post and sync_all

  /** `content/posts/<stem>/index.md`. */
  function PostDestination(hugoContent: string, sourceFile: string): string {
    Join(Join(Join(hugoContent, "posts"), Stem(sourceFile)), "index.md")
  }

  /** The bundle directory is named after the post's stem and holds `index.md`. */
  lemma PostDestinationLayout(hugoContent: string, sourceFile: string)
    requires Name(sourceFile) != ""
    ensures Name(PostDestination(hugoContent, sourceFile)) == "index.md"
    ensures Name(Parent(PostDestination(hugoContent, sourceFile))) == Stem(sourceFile)
  {
    var stem := Stem(sourceFile);
    StemSuffixName(sourceFile);
    var bundle := Join(Join(hugoContent, "posts"), stem);
    JoinName(Join(hugoContent, "posts"), stem);
    NameIsLast(bundle);
    assert bundle[|bundle| - 1] == stem[|stem| - 1];
    JoinName(bundle, "index.md");
  }

  /** `sync_post`: `None` when reading, copying or writing raises. */
  function SyncPost(hugoContent: string, sourceFile: string, files: Files, clock: Clock): (r: Option<Synced>)
    ensures r.Some? <==> sourceFile in files.texts && sourceFile !in files.failing
    ensures r.Some? ==> (r.value.dest == PostDestination(hugoContent, sourceFile)
      && Rewritten(r.value.text, r.value.copies) == Rewrite(files.texts[sourceFile], sourceFile, files.present, clock))
  {
    match files.Read(sourceFile)
    case None => None
    case Some(content) =>
      if sourceFile in files.failing then None
      else
        var rw := Rewrite(content, sourceFile, files.present, clock);
        Some(Synced(PostDestination(hugoContent, sourceFile), rw.text, rw.copies))
  }

  function BlogSyncer(hugoContent: string, files: Files, clock: Clock): string -> Option<Synced> {
    p => SyncPost(hugoContent, p, files, clock)
  }

  /** What `sync_post` returns for each post in turn. */
  function Outcomes(hugoContent: string, posts: seq<string>, files: Files, clock: Clock): seq<Option<Synced>> {
    Map(BlogSyncer(hugoContent, files, clock), posts)
  }

  /** `sync_all`: the successful results, in discovery order; failures are dropped. */
  method SyncAll(blog: string, hugoContent: string, listing: Option<seq<string>>, files: Files, clock: Clock)
    returns (synced: seq<Synced>)
    ensures var posts := if listing.None? then [] else Discover(blog, listing.value);
      synced == Somes(Outcomes(hugoContent, posts, files, clock))
  {
    var posts := FindBlogPosts(blog, listing);
    synced := [];
    if |posts| == 0 {
      return;
    }
    for i := 0 to |posts|
      invariant synced == Somes(Outcomes(hugoContent, posts[..i], files, clock))
    {
      var result := SyncPost(hugoContent, posts[i], files, clock);
      MapSomesStep(BlogSyncer(hugoContent, files, clock), posts, i);
      if result.Some? {
        synced := synced + [result.value];
      }
    }
    assert posts[..|posts|] == posts;
  }

  /** Every result of a batch is the bundle of a readable, writable post that was sent in. */
  lemma SyncAllResults(hugoContent: string, posts: seq<string>, files: Files, clock: Clock, s: Synced)
    requires s in Somes(Outcomes(hugoContent, posts, files, clock))
    ensures exists p :: p in posts && p in files.texts && p !in files.failing && s.dest == PostDestination(hugoContent, p)
  {
    var os := Outcomes(hugoContent, posts, files, clock);
    SomesMembership(os, s);
    var i :| 0 <= i < |os| && os[i] == Some(s);
    assert posts[i] in posts;
  }

  /** A batch in which every post syncs loses none of them. */
  lemma SyncAllKeepsAll(hugoContent: string, posts: seq<string>, files: Files, clock: Clock)
    requires forall p :: p in posts ==> p in files.texts && p !in files.failing
    ensures |Somes(Outcomes(hugoContent, posts, files, clock))| == |posts|
  {
    var os := Outcomes(hugoContent, posts, files, clock);
    forall i | 0 <= i < |os| ensures os[i].Some? {
      assert posts[i] in posts;
    }
    SomesAllPresent(os);
  }

  // ---------------------------------------------------------------------------
  // git_push

  /** The message when none is given: the bundle directory of a single post, or a count. */
  function CommitMessage(synced: seq<string>): string {
    if |synced| == 1 then "Sync blog post: " + Name(Parent(synced[0]))
    else "Sync " + NatToString(|synced|) + " blog posts from Obsidian"
  }

  /** A single synced post is named by its stem. */
  lemma SinglePostMessage(hugoContent: string, sourceFile: string)
    requires Name(sourceFile) != ""
    ensures CommitMessage([PostDestination(hugoContent, sourceFile)]) == "Sync blog post: " + Stem(sourceFile)
  {
    PostDestinationLayout(hugoContent, sourceFile);
  }

  /** Otherwise the message carries the count, which reads back from it. */
  lemma PluralMessageCount(synced: seq<string>)
    requires |synced| != 1
    ensures var m := CommitMessage(synced);
      StartsWith(m, "Sync ") && EndsWith(m, " blog posts from Obsidian") && 5 <= |m| - 25
      && (forall i :: 5 <= i < |m| - 25 ==> IsDigit(m[i]))
      && ParseNat(m[5..|m| - 25]) == |synced|
  {
    var d := NatToString(|synced|);
    var m := CommitMessage(synced);
    assert m == "Sync " + d + " blog posts from Obsidian";
    assert m[5..|m| - 25] == d;
    ParseNatToString(|synced|);
  }

  /** The calls made and the value returned. */
  datatype Pushed = Pushed(ok: bool, calls: seq<GitCall>)

  /** The commands `git_push` can run, in order. */
  function PushCalls(message: string): seq<GitCall> {
    [RevParse, AddAll, Status, Commit(message), Push("origin", "master")]
  }

  /** How many of them run: each checked step that fails is the last. */
  function Reached(synced: seq<string>, repo: Repo): (n: nat)
    ensures n <= 5
  {
    if synced == [] then 0
    else if !repo.isRepo then 1
    else if !repo.addOk then 2
    else if !HasContent(repo.status) then 3
    else if !repo.commitOk then 4
    else 5
  }

  /** The message to commit with: the one given, unless it is empty. */
  function MessageFor(synced: seq<string>, message: Option<string>): string {
    if message.Some? && message.value != "" then message.value else CommitMessage(synced)
  }

  /** `git_push`: nothing without synced files; otherwise check for a repository, stage,
      stop when `status --porcelain` shows nothing, then commit and push to origin master.
      Any failing checked command ends it with `False`. */
  function GitPush(synced: seq<string>, message: Option<string>, repo: Repo): (r: Pushed)
    ensures synced == [] ==> r == Pushed(false, [])
    ensures r.ok <==> synced != [] && repo.isRepo && repo.addOk && HasContent(repo.status) && repo.commitOk && repo.pushOk
    ensures Commit(MessageFor(synced, message)) in r.calls <==>
      synced != [] && repo.isRepo && repo.addOk && HasContent(repo.status)
    ensures |r.calls| <= 5 && r.calls == PushCalls(MessageFor(synced, message))[..|r.calls|]
  {
    var all := PushCalls(MessageFor(synced, message));
    var n := Reached(synced, repo);
    assert Commit(MessageFor(synced, message)) in all[..n] <==> n >= 4 by {
      assert forall q :: 0 <= q < n && q != 3 ==> !all[q].Commit?;
      if n >= 4 {
        assert all[..n][3] == all[3];
      }
    }
    Pushed(n == 5 && repo.pushOk, all[..n])
  }

  // ---------------------------------------------------------------------------
  // The --watch polling loop

  /** One post as a polling pass sees it: its modification time, and what `sync_post` would
      return for it. */
  datatype Observed = Observed(post: string, mtime: real, outcome: Option<string>)

  /** A post is synced again when it was never synced or changed since. */
  predicate Due(last: map<string, real>, o: Observed) {
    o.post !in last || o.mtime > last[o.post]
  }

  datatype Poll = Poll(synced: seq<string>, last: map<string, real>)

  /** The state after the first `n` posts of a pass. */
  function PassFirst(last: map<string, real>, obs: seq<Observed>, n: nat): Poll
    requires n <= |obs|
    decreases n
  {
    if n == 0 then Poll([], last)
    else
      var p := PassFirst(last, obs, n - 1);
      var o := obs[n - 1];
      if Due(p.last, o) && o.outcome.Some? then Poll(p.synced + [o.outcome.value], p.last[o.post := o.mtime])
      else p
  }

  /** One iteration of the watch loop over the discovered posts. */
  method WatchPass(last: map<string, real>, obs: seq<Observed>) returns (synced: seq<string>, next: map<string, real>)
    ensures Poll(synced, next) == PassFirst(last, obs, |obs|)
  {
    synced, next := [], last;
    for i := 0 to |obs|
      invariant Poll(synced, next) == PassFirst(last, obs, i)
    {
      var o := obs[i];
      if o.post !in next || o.mtime > next[o.post] {
        if o.outcome.Some? {
          synced := synced + [o.outcome.value];
          next := next[o.post := o.mtime];
        }
      }
    }
  }

  predicate Distinct(obs: seq<Observed>) {
    forall i, j :: 0 <= i < j < |obs| ==> obs[i].post != obs[j].post
  }

  /** A post the first `n` observations do not mention keeps its entry. */
  lemma {:induction false} PassLeavesOthers(last: map<string, real>, obs: seq<Observed>, n: nat, p: string)
    requires n <= |obs|
    requires forall i :: 0 <= i < n ==> obs[i].post != p
    ensures var next := PassFirst(last, obs, n).last;
      (p in next <==> p in last) && (p in last ==> next[p] == last[p])
    decreases n
  {
    if n > 0 {
      PassLeavesOthers(last, obs, n - 1, p);
    }
  }

  /** What a pass records: a due post that synced gets its modification time, and any other
      post keeps its entry, so a failed sync is retried next time. */
  lemma {:induction false} PassRecords(last: map<string, real>, obs: seq<Observed>, n: nat)
    requires n <= |obs| && Distinct(obs)
    ensures var next := PassFirst(last, obs, n).last;
      forall i :: 0 <= i < n ==>
        if Due(last, obs[i]) && obs[i].outcome.Some? then obs[i].post in next && next[obs[i].post] == obs[i].mtime
        else (obs[i].post in next <==> obs[i].post in last) && (obs[i].post in last ==> next[obs[i].post] == last[obs[i].post])
    decreases n
  {
    if n > 0 {
      PassRecords(last, obs, n - 1);
      var o := obs[n - 1];
      PassLeavesOthers(last, obs, n - 1, o.post);
      var next := PassFirst(last, obs, n).last;
      forall i | 0 <= i < n - 1
        ensures (obs[i].post in next <==> obs[i].post in PassFirst(last, obs, n - 1).last)
          && (obs[i].post in next ==> next[obs[i].post] == PassFirst(last, obs, n - 1).last[obs[i].post])
      {
        assert obs[i].post != o.post;
      }
    }
  }

  /** Polling again with nothing changed attempts exactly the posts whose sync failed. */
  lemma SecondPassRetriesFailures(last: map<string, real>, obs: seq<Observed>)
    requires Distinct(obs)
    ensures var next := PassFirst(last, obs, |obs|).last;
      forall i :: 0 <= i < |obs| ==> (Due(next, obs[i]) <==> Due(last, obs[i]) && obs[i].outcome.None?)
  {
    PassRecords(last, obs, |obs|);
  }

  /** The posts a pass reports are the outcomes of due posts, in discovery order. */
  lemma {:induction false} PassSynced(last: map<string, real>, obs: seq<Observed>, n: nat)
    requires n <= |obs| && Distinct(obs)
    ensures forall d :: d in PassFirst(last, obs, n).synced <==>
      exists i :: 0 <= i < n && Due(last, obs[i]) && obs[i].outcome == Some(d)
    decreases n
  {
    if n > 0 {
      PassSynced(last, obs, n - 1);
      var o := obs[n - 1];
      PassLeavesOthers(last, obs, n - 1, o.post);
      assert Due(PassFirst(last, obs, n - 1).last, o) == Due(last, o);
    }
  }
}
