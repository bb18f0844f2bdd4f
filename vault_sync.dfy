/** The flat-layout sync script: a post is any `.md` file of the vault that carries front
    matter, a publish tag or `blog` in its path; images are looked for where the reference
    points, copied under `<stem>_<image name>`, and every post becomes
    `content/posts/<file name>` with front matter added when it has none. */
module VaultSync {
  import opened Wrappers
  import opened Text
  import opened Paths
  import opened ImageRefs
  import opened Rewriting
  import opened Disk
  import opened Git

  // ---------------------------------------------------------------------------
  // is_blog_post and find_blog_posts

  /** Hugo front matter: YAML `---` or TOML `+++` at the very start. */
  predicate HasFrontMatter(content: string) {
    StartsWith(content, "---") || StartsWith(content, "+++")
  }

  /** `re.search(r'#blog|#post|#publish', content, re.IGNORECASE)`. */
  predicate HasPublishTag(content: string) {
    Contains(Lower(content), "#blog") || Contains(Lower(content), "#post") || Contains(Lower(content), "#publish")
  }

  /** `is_blog_post`, given what reading the file gives (`None` when it raises). */
  predicate IsBlogPost(read: Option<string>, path: string) {
    match read
    case None => false
    case Some(content) => HasFrontMatter(content) || HasPublishTag(content) || Contains(Lower(path), "blog")
  }

  /** `t` matches `s` at `i` when letter case is ignored. */
  predicate MatchesAt(s: string, t: string, i: nat) {
    i + |t| <= |s| && forall k :: 0 <= k < |t| ==> LowerChar(s[i + k]) == t[k]
  }

  /** Searching the lower-cased text for a lower-case marker is a search that ignores case. */
  lemma SearchIgnoresCase(s: string, t: string)
    ensures Contains(Lower(s), t) <==> exists i: nat :: i <= |s| && MatchesAt(s, t, i)
  {
    var l := Lower(s);
    if Contains(l, t) {
      var i: nat :| i <= |l| && OccursAt(l, t, i);
      forall k | 0 <= k < |t| ensures LowerChar(s[i + k]) == t[k] {
        assert l[i..i + |t|][k] == l[i + k];
      }
      assert MatchesAt(s, t, i);
    }
    if exists i: nat :: i <= |s| && MatchesAt(s, t, i) {
      var i: nat :| i <= |s| && MatchesAt(s, t, i);
      assert l[i..i + |t|] == t;
      assert OccursAt(l, t, i);
    }
  }

  /** The classification, stated with case-insensitive matching: front matter, or one of the
      three tags anywhere in any letter case, or `blog` anywhere in the path in any case;
      and never a file that cannot be read. */
  lemma BlogPostExactly(read: Option<string>, path: string)
    ensures IsBlogPost(read, path) <==> (read.Some? &&
      (HasFrontMatter(read.value)
       || (exists i: nat :: i <= |read.value| && MatchesAt(read.value, "#blog", i))
       || (exists i: nat :: i <= |read.value| && MatchesAt(read.value, "#post", i))
       || (exists i: nat :: i <= |read.value| && MatchesAt(read.value, "#publish", i))
       || (exists i: nat :: i <= |path| && MatchesAt(path, "blog", i))))
  {
    if read.Some? {
      SearchIgnoresCase(read.value, "#blog");
      SearchIgnoresCase(read.value, "#post");
      SearchIgnoresCase(read.value, "#publish");
    }
    SearchIgnoresCase(path, "blog");
  }

  /** A tag written in any letter case, anywhere, makes the file a post. */
  lemma TagAnywhere(a: string, m: string, b: string, path: string)
    requires Lower(m) == "#blog" || Lower(m) == "#post" || Lower(m) == "#publish"
    ensures IsBlogPost(Some(a + m + b), path)
  {
    LowerContains(a, m, b, Lower(m));
  }

  /** `blog` in any letter case anywhere in the path makes a readable file a post. */
  lemma BlogFolderAnyCase(content: string, a: string, m: string, b: string)
    requires Lower(m) == "blog"
    ensures IsBlogPost(Some(content), a + m + b)
  {
    LowerContains(a, m, b, "blog");
  }

  /** The `rglob("*.md")` name test, then the classification. */
  function Accepts(files: Files): string -> bool {
    p => EndsWith(Name(p), ".md") && IsBlogPost(files.Read(p), p)
  }

  /** The posts among the vault's files, listed recursively, in listing order. */
  function VaultPosts(listing: seq<string>, files: Files): seq<string> {
    Filter(Accepts(files), listing)
  }

  /** Discovery returns exactly the listed `.md` files that classify as posts. */
  lemma VaultPostsExactly(listing: seq<string>, files: Files, p: string)
    ensures p in VaultPosts(listing, files) <==>
      p in listing && EndsWith(Name(p), ".md") && IsBlogPost(files.Read(p), p)
  {
    FilterMembership(Accepts(files), listing, p);
  }

  /** The name test of the listing, then reading the file and classifying it. */
  method Classify(files: Files, p: string) returns (keep: bool)
    ensures keep <==> Accepts(files)(p)
  {
    keep := false;
    if EndsWith(Name(p), ".md") {
      var read := files.Read(p);
      keep := IsBlogPost(read, p);
    }
  }

  /** `find_blog_posts` over the vault's `rglob("*.md")`-ordered listing. */
  method FindBlogPosts(listing: seq<string>, files: Files) returns (posts: seq<string>)
    ensures posts == VaultPosts(listing, files)
  {
    posts := [];
    for i := 0 to |listing|
      invariant posts == Filter(Accepts(files), listing[..i])
    {
      var keep := Classify(files, listing[i]);
      FilterLoopBody(Accepts(files), listing, i, posts, keep);
      if keep {
        posts := posts + [listing[i]];
      }
    }
    assert listing[..|listing|] == listing;
  }

  // ---------------------------------------------------------------------------
  // process_images

  /** Only web URLs are left alone. */
  predicate IsWeb(path: string) {
    StartsWith(path, "http://") || StartsWith(path, "https://")
  }

  /** An absolute path as it is; a relative one below the post's directory. */
  function SourceImage(sourceFile: string, path: string): string {
    if IsAbsolute(path) then path else Join(Parent(sourceFile), path)
  }

  /** The existing image a reference resolves to, if it is not a web URL. */
  function Resolution(sourceFile: string, present: set<string>, r: ImageRef): Option<string> {
    if IsWeb(r.target) then None
    else if SourceImage(sourceFile, r.target) in present then Some(SourceImage(sourceFile, r.target))
    else None
  }

  /** The web-URL test, then the existence check, for one reference. */
  method ResolveReference(sourceFile: string, present: set<string>, r: ImageRef) returns (found: Option<string>)
    ensures found == Resolution(sourceFile, present, r)
  {
    found := None;
    if !IsWeb(r.target) {
      var source := if IsAbsolute(r.target) then r.target else Join(Parent(sourceFile), r.target);
      if source in present {
        found := Some(source);
      }
    }
  }

  /** `{stem}_{image name}`. */
  function ImageName(stem: string, image: string): string {
    stem + "_" + image
  }

  function VaultResolver(sourceFile: string, present: set<string>): Resolver {
    r => Resolution(sourceFile, present, r)
  }

  function VaultNamer(sourceFile: string): Namer {
    (k: nat, src: string) => ImageName(Stem(sourceFile), Name(src))
  }

  /** What `process_images` computes for `content` read from `sourceFile`. */
  function Rewrite(content: string, sourceFile: string, present: set<string>): Rewritten {
    RewriteAll(content, VaultResolver(sourceFile, present), VaultNamer(sourceFile))
  }

  /** The matches of both patterns come from the original `content`; the replacements
      accumulate in `processed`. */
  method ProcessImages(content: string, sourceFile: string, present: set<string>)
    returns (processed: string, copies: seq<Copy>)
    ensures Rewritten(processed, copies) == Rewrite(content, sourceFile, present)
  {
    var refs := Refs(content);
    ghost var resolve, namer := VaultResolver(sourceFile, present), VaultNamer(sourceFile);
    processed, copies := content, [];
    for k := 0 to |refs|
      invariant Rewritten(processed, copies) == RewriteFirst(content, refs, k, resolve, namer)
    {
      var r := refs[k];
      var found := ResolveReference(sourceFile, present, r);
      var name := if found.Some? then ImageName(Stem(sourceFile), Name(found.value)) else "";
      LoopBody(content, refs, k, resolve, namer, processed, copies, found, name);
      if found.Some? {
        processed := ReplaceAll(processed, Render(r), Published(AltText(r), name));
        copies := copies + [Copy(k, found.value, name)];
      }
    }
  }

  /** Each copy is the image the reference points at, which exists, under
      `{stem}_{image name}`: the same image always gets the same name, whatever the
      reference's position or the time. */
  lemma VaultCopiesSound(content: string, sourceFile: string, present: set<string>)
    ensures var refs := Refs(content);
      forall c :: c in Rewrite(content, sourceFile, present).copies ==>
        c.ref < |refs| && !IsWeb(refs[c.ref].target) && c.source in present
        && c.source == SourceImage(sourceFile, refs[c.ref].target)
        && c.name == ImageName(Stem(sourceFile), Name(c.source))
  {
    var refs := Refs(content);
    var resolve, namer := VaultResolver(sourceFile, present), VaultNamer(sourceFile);
    AllCopiesSound(content, resolve, namer);
    forall c | c in RewriteAll(content, resolve, namer).copies
      ensures !IsWeb(refs[c.ref].target) && c.source in present
      ensures c.source == SourceImage(sourceFile, refs[c.ref].target)
      ensures c.name == ImageName(Stem(sourceFile), Name(c.source))
    {
      assert resolve(refs[c.ref]) == Resolution(sourceFile, present, refs[c.ref]);
      assert namer(c.ref, c.source) == ImageName(Stem(sourceFile), Name(c.source));
    }
  }

  /** A reference is copied exactly when it is not a web URL and its image exists. */
  lemma VaultCopiesCover(content: string, sourceFile: string, present: set<string>)
    ensures var refs := Refs(content);
      forall k :: 0 <= k < |refs| ==>
        ((exists c :: c in Rewrite(content, sourceFile, present).copies && c.ref == k)
         <==> !IsWeb(refs[k].target) && SourceImage(sourceFile, refs[k].target) in present)
  {
    var refs := Refs(content);
    var resolve := VaultResolver(sourceFile, present);
    AllCopiesCover(content, resolve, VaultNamer(sourceFile));
    forall k | 0 <= k < |refs|
      ensures resolve(refs[k]).Some? <==> !IsWeb(refs[k].target) && SourceImage(sourceFile, refs[k].target) in present
    {
      assert resolve(refs[k]) == Resolution(sourceFile, present, refs[k]);
    }
  }

  /** A text in which every image is a web URL or missing comes back as given. */
  lemma MissingImagesUnchanged(content: string, sourceFile: string, present: set<string>)
    requires forall k :: 0 <= k < |Refs(content)| ==>
      IsWeb(Refs(content)[k].target) || SourceImage(sourceFile, Refs(content)[k].target) !in present
    ensures Rewrite(content, sourceFile, present) == Rewritten(content, [])
  {
    var refs := Refs(content);
    var resolve := VaultResolver(sourceFile, present);
    forall k | 0 <= k < |refs| ensures resolve(refs[k]).None? {
      assert resolve(refs[k]) == Resolution(sourceFile, present, refs[k]);
    }
    AllUnresolvedUnchanged(content, resolve, VaultNamer(sourceFile));
  }

  /** A site-absolute embed target that exists resolves to itself. */
  lemma AbsoluteResolves(sourceFile: string, present: set<string>, t: string)
    requires IsAbsolute(t) && t in present
    ensures VaultResolver(sourceFile, present)(ImageRef(Embed, 0, |t| + 5, [], t)) == Some(t)
  {
    assert !StartsWith(t, "http://") && !StartsWith(t, "https://") by {
      assert t[0] == '/';
    }
  }

  /** The embed `![[t]]`, its alt text and the name its image gets. */
  lemma EmbedParts(sourceFile: string, t: string)
    ensures var r := ImageRef(Embed, 0, |t| + 5, [], t);
      Render(r) == "![[" + t + "]]" && AltText(r) == Stem(t)
      && VaultNamer(sourceFile)(0, t) == ImageName(Stem(sourceFile), Name(t))
  {
  }

  /** Unlike the bundle script, a site-absolute path is looked up as it is: a post holding just
      `![[/dir/x.png]]`, with that image present, gets it copied and the reference rewritten. */
  lemma AbsoluteEmbedCopied(sourceFile: string, present: set<string>, t: string)
    requires IsAbsolute(t) && ']' !in t && '(' !in t && t in present
    ensures var name := ImageName(Stem(sourceFile), Name(t));
      Rewrite("![[" + t + "]]", sourceFile, present) == Rewritten(Published(Stem(t), name), [Copy(0, t, name)])
  {
    var r := ImageRef(Embed, 0, |t| + 5, [], t);
    LoneEmbedRefs(t);
    AbsoluteResolves(sourceFile, present, t);
    EmbedParts(sourceFile, t);
    WholeReferenceRewritten(r, VaultResolver(sourceFile, present), VaultNamer(sourceFile));
  }

  /** A copy's name holds the post's stem, as in the bundle script. */
  lemma StemInImageName(stem: string, image: string, t: string)
    requires Contains(stem, t)
    ensures Contains(ImageName(stem, image), t)
  {
    ContainsWithin([], stem, "_" + image, t);
    assert ImageName(stem, image) == [] + stem + ("_" + image);
  }

  /** Names carry no timestamp and no directory: posts with the same stem in different
      folders, referring to images with the same name in different folders, give those
      images the same name, so the later copy overwrites the earlier. */
  lemma NamesIgnoreFolders(d1: string, d2: string, post: string, e1: string, e2: string, image: string)
    requires post != "" && '/' !in post && image != "" && '/' !in image
    ensures ImageName(Stem(Join(d1, post)), Name(Join(e1, image)))
      == ImageName(Stem(Join(d2, post)), Name(Join(e2, image)))
  {
    JoinName(d1, post);
    JoinName(d2, post);
    JoinName(e1, image);
    JoinName(e2, image);
  }

  // ---------------------------------------------------------------------------
  // process_front_matter

  /** The front matter written for a post that has none. */
  datatype FrontMatter = FrontMatter(title: string, date: string, draft: bool, author: string,
                                     categories: seq<string>, tags: seq<string>)

  /** `yaml.dump(front_matter, default_flow_style=False)`, whose exact text is not modelled. */
  type Dump = FrontMatter -> string

  /** The `datetime.now().isoformat()` each post is stamped with when it is synced. */
  type Dates = string -> string

  /** `stem.replace('-', ' ').replace('_', ' ').title()`. */
  function Title(stem: string): string {
    TitleCase(ReplaceAll(ReplaceAll(stem, "-", " "), "_", " "))
  }

  /** The title has the stem's length; dashes and underscores become spaces; every other
      character is kept except that letters are title-cased: upper case at the start of a
      word (a letter not preceded by a letter), lower case inside it. */
  lemma TitleFromStem(stem: string)
    ensures var t := Title(stem);
      |t| == |stem| && '-' !in t && '_' !in t
      && (forall i :: 0 <= i < |stem| && (stem[i] == '-' || stem[i] == '_') ==> t[i] == ' ')
      && (forall i :: 0 <= i < |stem| && !IsLetter(stem[i]) && stem[i] != '-' && stem[i] != '_' ==> t[i] == stem[i])
      && (forall i :: 0 <= i < |stem| && IsLetter(stem[i]) ==>
            LowerChar(t[i]) == LowerChar(stem[i]) && (IsUpper(t[i]) <==> i == 0 || !IsLetter(stem[i - 1])))
  {
    var a := ReplaceAll(stem, "-", " ");
    ReplaceCharPointwise(stem, '-', ' ');
    assert a == ReplaceAll(stem, ['-'], [' ']);
    var b := ReplaceAll(a, "_", " ");
    ReplaceCharPointwise(a, '_', ' ');
    assert b == ReplaceAll(a, ['_'], [' ']);
    var t := Title(stem);
    forall i | 0 <= i < |stem| ensures IsLetter(b[i]) <==> IsLetter(stem[i]) {
    }
    assert '-' !in t by {
      forall i | 0 <= i < |t| ensures t[i] != '-' {
        if IsLetter(b[i]) {
        } else {
          assert t[i] == b[i];
        }
      }
    }
    assert '_' !in t by {
      forall i | 0 <= i < |t| ensures t[i] != '_' {
        if IsLetter(b[i]) {
        } else {
          assert t[i] == b[i];
        }
      }
    }
  }

  /** The metadata of a new post: its title, the sync time, published, the site's author,
      the default category and no tags. */
  function NewFrontMatter(sourceFile: string, date: string): FrontMatter {
    FrontMatter(Title(Stem(sourceFile)), date, false, "amlucas0xff", ["general"], [])
  }

  /** `process_front_matter`: a text with front matter is kept; any other gets a YAML block
      in front. Either way the result has front matter and ends with the text given, and it
      is the text given exactly when that already had front matter. */
  function ProcessFrontMatter(content: string, sourceFile: string, date: string, dump: Dump): (r: string)
    ensures HasFrontMatter(r) && EndsWith(r, content)
    ensures r == content <==> HasFrontMatter(content)
  {
    if HasFrontMatter(content) then content
    else "---\n" + dump(NewFrontMatter(sourceFile, date)) + "---\n\n" + content
  }

  /** A new block is the YAML dump of the new post's metadata between `---` lines, followed
      by an empty line and the text as it was. */
  lemma FrontMatterAdded(content: string, sourceFile: string, date: string, dump: Dump)
    requires !HasFrontMatter(content)
    ensures var r := ProcessFrontMatter(content, sourceFile, date, dump);
      var block := dump(NewFrontMatter(sourceFile, date));
      |r| == |content| + |block| + 9
      && r[..4] == "---\n" && r[4..4 + |block|] == block && r[4 + |block|..9 + |block|] == "---\n\n"
      && r[9 + |block|..] == content
  {
  }

  /** Processing the front matter a second time changes nothing. */
  lemma FrontMatterIdempotent(content: string, sourceFile: string, date: string, date2: string, dump: Dump)
    ensures var once := ProcessFrontMatter(content, sourceFile, date, dump);
      ProcessFrontMatter(once, sourceFile, date2, dump) == once
  {
  }

  // ---------------------------------------------------------------------------
  // sync_post and sync_all

  /** `hugo_content / "posts" / source_file.name`: a flat layout. */
  function PostDestination(hugoContent: string, sourceFile: string): string {
    Join(Join(hugoContent, "posts"), Name(sourceFile))
  }

  /** The destination is named like the source and lies in the posts directory. */
  lemma PostDestinationLayout(hugoContent: string, sourceFile: string)
    requires Name(sourceFile) != ""
    ensures Name(PostDestination(hugoContent, sourceFile)) == Name(sourceFile)
    ensures Parent(PostDestination(hugoContent, sourceFile)) == Join(hugoContent, "posts")
  {
    NameIsLast(sourceFile);
    JoinName(Join(hugoContent, "posts"), Name(sourceFile));
    var d := Join(hugoContent, "posts");
    assert d != "" && !EndsWith(d, "/") by {
      if hugoContent == "" {
        assert d == "posts";
      } else {
        assert EndsWith(d, "posts");
        assert d[|d| - 1] == 's';
      }
    }
  }

  /** `sync_post`: `None` when reading, copying or writing raises; otherwise the images are
      processed, then the front matter, and the result goes to the flat destination. */
  function SyncPost(hugoContent: string, sourceFile: string, files: Files, dates: Dates, dump: Dump): (r: Option<Synced>)
    ensures r.Some? <==> sourceFile in files.texts && sourceFile !in files.failing
    ensures r.Some? ==> var rw := Rewrite(files.texts[sourceFile], sourceFile, files.present);
      r.value.dest == PostDestination(hugoContent, sourceFile)
      && r.value.copies == rw.copies
      && r.value.text == ProcessFrontMatter(rw.text, sourceFile, dates(sourceFile), dump)
      && HasFrontMatter(r.value.text) && EndsWith(r.value.text, rw.text)
  {
    match files.Read(sourceFile)
    case None => None
    case Some(content) =>
      if sourceFile in files.failing then None
      else
        var rw := Rewrite(content, sourceFile, files.present);
        var text := ProcessFrontMatter(rw.text, sourceFile, dates(sourceFile), dump);
        Some(Synced(PostDestination(hugoContent, sourceFile), text, rw.copies))
  }

  /** Image processing keeps a start without `!`: every matched text starts with one. */
  lemma RewriteKeepsStart(content: string, sourceFile: string, present: set<string>, p: string, q: string)
    requires (StartsWith(content, p) || StartsWith(content, q)) && '!' !in p && '!' !in q
    ensures StartsWith(Rewrite(content, sourceFile, present).text, p) || StartsWith(Rewrite(content, sourceFile, present).text, q)
  {
    AllKeepPrefix(content, VaultResolver(sourceFile, present), VaultNamer(sourceFile), p, q);
  }

  /** Image processing keeps front matter at the start. */
  lemma RewriteKeepsFrontMatter(content: string, sourceFile: string, present: set<string>)
    requires HasFrontMatter(content)
    ensures HasFrontMatter(Rewrite(content, sourceFile, present).text)
  {
    RewriteKeepsStart(content, sourceFile, present, "---", "+++");
  }

  /** A post that already has front matter keeps it, and no second block is added: the
      image-processed text is written as it is. */
  lemma KeepsExistingFrontMatter(hugoContent: string, sourceFile: string, files: Files, dates: Dates, dump: Dump)
    requires sourceFile in files.texts && sourceFile !in files.failing
    requires HasFrontMatter(files.texts[sourceFile])
    ensures SyncPost(hugoContent, sourceFile, files, dates, dump).value.text
      == Rewrite(files.texts[sourceFile], sourceFile, files.present).text
  {
    RewriteKeepsFrontMatter(files.texts[sourceFile], sourceFile, files.present);
  }

  /** Front matter written at two dates whose dumps differ differs: a post without front
      matter is written differently by every run whose date changes the dump. */
  lemma FrontMatterDependsOnDate(content: string, sourceFile: string, d1: string, d2: string, dump: Dump)
    requires !HasFrontMatter(content)
    requires dump(NewFrontMatter(sourceFile, d1)) != dump(NewFrontMatter(sourceFile, d2))
    ensures ProcessFrontMatter(content, sourceFile, d1, dump) != ProcessFrontMatter(content, sourceFile, d2, dump)
  {
    var b1, b2 := dump(NewFrontMatter(sourceFile, d1)), dump(NewFrontMatter(sourceFile, d2));
    FrontMatterAdded(content, sourceFile, d1, dump);
    FrontMatterAdded(content, sourceFile, d2, dump);
  }

  /** `sync_post` of a post whose image-processed text has no front matter depends on the
      sync date. */
  lemma DateChangesOutput(hugoContent: string, sourceFile: string, files: Files, d1: Dates, d2: Dates, dump: Dump)
    requires sourceFile in files.texts && sourceFile !in files.failing
    requires !HasFrontMatter(Rewrite(files.texts[sourceFile], sourceFile, files.present).text)
    requires dump(NewFrontMatter(sourceFile, d1(sourceFile))) != dump(NewFrontMatter(sourceFile, d2(sourceFile)))
    ensures SyncPost(hugoContent, sourceFile, files, d1, dump).value.text
      != SyncPost(hugoContent, sourceFile, files, d2, dump).value.text
  {
    FrontMatterDependsOnDate(Rewrite(files.texts[sourceFile], sourceFile, files.present).text,
      sourceFile, d1(sourceFile), d2(sourceFile), dump);
  }

  /** A post that has front matter is written the same whatever the date. */
  lemma DateIrrelevantWithFrontMatter(hugoContent: string, sourceFile: string, files: Files, d1: Dates, d2: Dates, dump: Dump)
    requires sourceFile in files.texts && sourceFile !in files.failing
    requires HasFrontMatter(files.texts[sourceFile])
    ensures SyncPost(hugoContent, sourceFile, files, d1, dump) == SyncPost(hugoContent, sourceFile, files, d2, dump)
  {
    KeepsExistingFrontMatter(hugoContent, sourceFile, files, d1, dump);
    KeepsExistingFrontMatter(hugoContent, sourceFile, files, d2, dump);
  }

  function VaultSyncer(hugoContent: string, files: Files, dates: Dates, dump: Dump): string -> Option<Synced> {
    p => SyncPost(hugoContent, p, files, dates, dump)
  }

  /** What `sync_post` returns for each post in turn. */
  function Outcomes(hugoContent: string, posts: seq<string>, files: Files, dates: Dates, dump: Dump): seq<Option<Synced>> {
    Map(VaultSyncer(hugoContent, files, dates, dump), posts)
  }

  /** `sync_all`: the successful results for the discovered posts, in discovery order. */
  method SyncAll(listing: seq<string>, hugoContent: string, files: Files, dates: Dates, dump: Dump)
    returns (synced: seq<Synced>)
    ensures synced == Somes(Outcomes(hugoContent, VaultPosts(listing, files), files, dates, dump))
  {
    var posts := FindBlogPosts(listing, files);
    synced := CollectSomes(VaultSyncer(hugoContent, files, dates, dump), posts);
  }

  /** Every result of a batch is the flat copy of a readable, writable post that was sent
      in, and carries front matter. */
  lemma SyncAllResults(hugoContent: string, posts: seq<string>, files: Files, dates: Dates, dump: Dump, s: Synced)
    requires s in Somes(Outcomes(hugoContent, posts, files, dates, dump))
    ensures exists p :: (p in posts && p in files.texts && p !in files.failing
      && s.dest == PostDestination(hugoContent, p) && HasFrontMatter(s.text))
  {
    var os := Outcomes(hugoContent, posts, files, dates, dump);
    SomesMembership(os, s);
    var i :| 0 <= i < |os| && os[i] == Some(s);
    var p := posts[i];
    assert p in posts;
    assert SyncPost(hugoContent, p, files, dates, dump) == Some(s);
  }

  /** Every discovered post that can be read and written is synced. */
  lemma SyncAllKeepsAll(listing: seq<string>, hugoContent: string, files: Files, dates: Dates, dump: Dump)
    requires forall p :: p in VaultPosts(listing, files) ==> p in files.texts && p !in files.failing
    ensures |Somes(Outcomes(hugoContent, VaultPosts(listing, files), files, dates, dump))| == |VaultPosts(listing, files)|
  {
    var posts := VaultPosts(listing, files);
    var os := Outcomes(hugoContent, posts, files, dates, dump);
    forall i | 0 <= i < |os| ensures os[i].Some? {
      assert posts[i] in posts;
    }
    SomesAllPresent(os);
  }

  // ---------------------------------------------------------------------------
  // auto_commit

  /** The trailer appended to every commit message, as the source file spells it (the
      UTF-8 bytes of a robot emoji read as Windows-1252). */
  const Trailer: string := "\n\n\U{00F0}\U{0178}\U{00A4}\U{2013} Generated with [Claude Code](https://claude.ai/code)\n\nCo-Authored-By: Claude <noreply@anthropic.com>"

  /** The commit message for the synced destination files. */
  function CommitMessage(synced: seq<string>): string {
    (if |synced| == 1 then "Sync blog post: " + Name(synced[0])
     else "Sync " + NatToString(|synced|) + " blog posts from Obsidian")
    + Trailer
  }

  /** A single synced post is named by its file name. */
  lemma SinglePostMessage(hugoContent: string, sourceFile: string)
    requires Name(sourceFile) != ""
    ensures CommitMessage([PostDestination(hugoContent, sourceFile)]) == "Sync blog post: " + Name(sourceFile) + Trailer
  {
    PostDestinationLayout(hugoContent, sourceFile);
  }

  /** Otherwise the message carries the count, which reads back from it, before the trailer. */
  lemma PluralMessageCount(synced: seq<string>)
    requires |synced| != 1
    ensures var m := CommitMessage(synced);
      StartsWith(m, "Sync ") && EndsWith(m, " blog posts from Obsidian" + Trailer) && 5 <= |m| - 25 - |Trailer|
      && (forall i :: 5 <= i < |m| - 25 - |Trailer| ==> IsDigit(m[i]))
      && ParseNat(m[5..|m| - 25 - |Trailer|]) == |synced|
  {
    var d := NatToString(|synced|);
    var m := CommitMessage(synced);
    assert m == "Sync " + d + (" blog posts from Obsidian" + Trailer);
    assert m[5..|m| - 25 - |Trailer|] == d;
    ParseNatToString(|synced|);
  }

  /** `auto_commit`: the git commands it runs. Nothing without synced files; otherwise
      `git add .`, and when that succeeds the commit. A failing command ends the attempt. */
  function AutoCommit(synced: seq<string>, repo: Repo): (calls: seq<GitCall>)
    ensures calls == [] <==> synced == []
    ensures forall c :: c in calls ==> c == AddAll || c == Commit(CommitMessage(synced))
    ensures Commit(CommitMessage(synced)) in calls <==> synced != [] && repo.addOk
    ensures calls != [] ==> calls[0] == AddAll
  {
    if synced == [] then []
    else if !repo.addOk then [AddAll]
    else [AddAll, Commit(CommitMessage(synced))]
  }
}
