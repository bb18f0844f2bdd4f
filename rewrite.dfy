/** The image-rewriting loop both sync scripts share: every reference found in the original
    text, standard ones first, is looked up; one that resolves to an existing image is copied
    under a new name, and every occurrence of its matched text in the text so far is replaced
    by a standard reference to `/images/<name>`. The scripts differ only in how a reference
    resolves and in the name the copy gets, which are parameters here. */
module Rewriting {
  import opened Wrappers
  import opened Text
  import opened Paths
  import opened ImageRefs

  /** An image copied to `static/images/<name>` for reference number `ref`. */
  datatype Copy = Copy(ref: nat, source: string, name: string)

  /** The rewritten text and the copies made, in order. */
  datatype Rewritten = Rewritten(text: string, copies: seq<Copy>)

  /** What a successful `sync_post` returns (the destination) and did (the text written there
      and the images copied). */
  datatype Synced = Synced(dest: string, text: string, copies: seq<Copy>)

  /** The existing image a reference resolves to, if any. */
  type Resolver = ImageRef -> Option<string>

  /** The name the image found for reference number `k` is copied under. */
  type Namer = (nat, string) -> string

  /** The alt text of the new reference: the bracket text, or for an embed the path's stem. */
  function AltText(r: ImageRef): string {
    if r.form == Standard then r.alt else Stem(r.target)
  }

  /** An embed's alt text is the last component of its path without the suffix. */
  lemma EmbedAltText(r: ImageRef)
    requires r.form == Embed
    ensures AltText(r) + Suffix(r.target) == Name(r.target) && '/' !in AltText(r)
  {
    StemSuffixName(r.target);
  }

  /** One `content.replace(pattern, replacement)` the loop performs. */
  datatype Edit = Edit(pattern: string, replacement: string)

  /** The edits made for the first `n` references: one for each that resolved, replacing
      its matched text by the published reference to its copy. */
  function EditsFirst(refs: seq<ImageRef>, n: nat, resolve: Resolver, name: Namer): (edits: seq<Edit>)
    requires n <= |refs|
    ensures forall e :: e in edits ==> |e.pattern| >= 5 && e.pattern[0] == '!'
    decreases n
  {
    if n == 0 then []
    else
      EditsFirst(refs, n - 1, resolve, name)
      + match resolve(refs[n - 1])
        case None => []
        case Some(src) => [Edit(Render(refs[n - 1]), Published(AltText(refs[n - 1]), name(n - 1, src)))]
  }

  /** The edits applied in order, each to the result of the ones before. */
  function ApplyEdits(text: string, edits: seq<Edit>): string
    requires forall e :: e in edits ==> e.pattern != []
    decreases |edits|
  {
    if edits == [] then text
    else
      var last := edits[|edits| - 1];
      assert last in edits;
      ReplaceAll(ApplyEdits(text, edits[..|edits| - 1]), last.pattern, last.replacement)
  }

  /** The text after the first `n` references. */
  function TextFirst(content: string, refs: seq<ImageRef>, n: nat, resolve: Resolver, name: Namer): string
    requires n <= |refs|
  {
    ApplyEdits(content, EditsFirst(refs, n, resolve, name))
  }

  /** Applying one more edit replaces its pattern in the result of the ones before. */
  lemma ApplyEditsSnoc(text: string, edits: seq<Edit>, e: Edit)
    requires (forall d :: d in edits ==> d.pattern != []) && e.pattern != []
    ensures ApplyEdits(text, edits + [e]) == ReplaceAll(ApplyEdits(text, edits), e.pattern, e.replacement)
  {
    assert (edits + [e])[..|edits|] == edits;
  }

  /** Edits whose pattern starts with a character the prefix lacks keep that prefix. */
  lemma {:induction false} EditsKeepPrefix(text: string, edits: seq<Edit>, p: string)
    requires StartsWith(text, p)
    requires forall e :: e in edits ==> e.pattern != [] && e.pattern[0] !in p
    ensures StartsWith(ApplyEdits(text, edits), p)
    decreases |edits|
  {
    if edits != [] {
      var last := edits[|edits| - 1];
      assert last in edits;
      var init := edits[..|edits| - 1];
      assert forall e :: e in init ==> e in edits;
      EditsKeepPrefix(text, init, p);
      ReplaceKeepsPrefix(ApplyEdits(text, init), last.pattern, last.replacement, p);
    }
  }

  /** The copies made for the first `n` references: one for each that resolved. */
  function CopiesFirst(refs: seq<ImageRef>, n: nat, resolve: Resolver, name: Namer): seq<Copy>
    requires n <= |refs|
    decreases n
  {
    if n == 0 then []
    else
      CopiesFirst(refs, n - 1, resolve, name)
      + match resolve(refs[n - 1])
        case None => []
        case Some(src) => [Copy(n - 1, src, name(n - 1, src))]
  }

  /** The state of the loop after the first `n` references. */
  function RewriteFirst(content: string, refs: seq<ImageRef>, n: nat, resolve: Resolver, name: Namer): Rewritten
    requires n <= |refs|
  {
    Rewritten(TextFirst(content, refs, n, resolve, name), CopiesFirst(refs, n, resolve, name))
  }

  /** The whole loop over the references of `content`. */
  function RewriteAll(content: string, resolve: Resolver, name: Namer): Rewritten {
    RewriteFirst(content, Refs(content), |Refs(content)|, resolve, name)
  }

  /** When no reference resolves (all skipped or missing), and in particular when there is
      no reference at all, the text comes back exactly as given and nothing is copied. */
  lemma {:induction false} NothingResolvedUnchanged(content: string, refs: seq<ImageRef>, n: nat,
                                                    resolve: Resolver, name: Namer)
    requires n <= |refs|
    requires forall k :: 0 <= k < n ==> resolve(refs[k]).None?
    ensures EditsFirst(refs, n, resolve, name) == []
    ensures RewriteFirst(content, refs, n, resolve, name) == Rewritten(content, [])
    decreases n
  {
    if n > 0 {
      NothingResolvedUnchanged(content, refs, n - 1, resolve, name);
      StepEdits(refs, n, resolve, name);
      StepCopies(refs, n, resolve, name);
    }
  }

  /** Every copy made is the copy of an earlier reference that resolved, under the name that
      reference gets. */
  lemma {:induction false} CopiesSound(refs: seq<ImageRef>, n: nat, resolve: Resolver, name: Namer)
    requires n <= |refs|
    ensures forall c :: c in CopiesFirst(refs, n, resolve, name) ==>
      c.ref < n && resolve(refs[c.ref]) == Some(c.source) && c.name == name(c.ref, c.source)
    decreases n
  {
    if n > 0 {
      CopiesSound(refs, n - 1, resolve, name);
    }
  }

  /** Copies listed in strictly increasing reference order. */
  predicate Increasing(copies: seq<Copy>) {
    forall i, j :: 0 <= i < j < |copies| ==> copies[i].ref < copies[j].ref
  }

  /** The copies come in reference order, one per reference at most. */
  lemma {:induction false} CopiesOrdered(refs: seq<ImageRef>, n: nat, resolve: Resolver, name: Namer)
    requires n <= |refs|
    ensures Increasing(CopiesFirst(refs, n, resolve, name))
    decreases n
  {
    if n > 0 {
      CopiesOrdered(refs, n - 1, resolve, name);
      CopiesSound(refs, n - 1, resolve, name);
      var before := CopiesFirst(refs, n - 1, resolve, name);
      var copies := CopiesFirst(refs, n, resolve, name);
      var added := match resolve(refs[n - 1])
        case None => []
        case Some(src) => [Copy(n - 1, src, name(n - 1, src))];
      assert copies == before + added;
      assert forall c :: c in added ==> c.ref == n - 1;
      forall i, j | 0 <= i < j < |copies| ensures copies[i].ref < copies[j].ref {
        assert copies[i] == before[i] && before[i] in before;
        if j < |before| {
          assert copies[j] == before[j];
        } else {
          assert copies[j] == added[j - |before|] && added[j - |before|] in added;
        }
      }
    }
  }

  /** The copy log holds a copy for exactly the references that resolved: a skipped or
      unresolved reference causes none. */
  lemma {:induction false} CopiesCover(refs: seq<ImageRef>, n: nat, resolve: Resolver, name: Namer)
    requires n <= |refs|
    ensures forall k :: 0 <= k < n ==>
      (resolve(refs[k]).Some? <==> exists c :: c in CopiesFirst(refs, n, resolve, name) && c.ref == k)
    decreases n
  {
    if n > 0 {
      CopiesCover(refs, n - 1, resolve, name);
      CopiesSound(refs, n - 1, resolve, name);
      StepCopies(refs, n, resolve, name);
      var before := CopiesFirst(refs, n - 1, resolve, name);
      var copies := CopiesFirst(refs, n, resolve, name);
      assert forall c :: c in copies ==> c in before || c.ref == n - 1;
      forall k | 0 <= k < n
        ensures resolve(refs[k]).Some? <==> exists c :: c in copies && c.ref == k
      {
        if k < n - 1 {
          if resolve(refs[k]).Some? {
            var c :| c in before && c.ref == k;
            assert c in copies;
          }
        } else if resolve(refs[k]).Some? {
          assert copies[|before|] in copies;
        }
      }
    }
  }

  /** `CopiesSound` for the whole loop over the references of `content`. */
  lemma AllCopiesSound(content: string, resolve: Resolver, name: Namer)
    ensures var refs := Refs(content);
      forall c :: c in RewriteAll(content, resolve, name).copies ==>
        c.ref < |refs| && resolve(refs[c.ref]) == Some(c.source) && c.name == name(c.ref, c.source)
  {
    CopiesSound(Refs(content), |Refs(content)|, resolve, name);
  }

  /** `CopiesCover` for the whole loop over the references of `content`. */
  lemma AllCopiesCover(content: string, resolve: Resolver, name: Namer)
    ensures var refs := Refs(content);
      forall k :: 0 <= k < |refs| ==>
        (resolve(refs[k]).Some? <==> exists c :: c in RewriteAll(content, resolve, name).copies && c.ref == k)
  {
    CopiesCover(Refs(content), |Refs(content)|, resolve, name);
  }

  /** `NothingResolvedUnchanged` for the whole loop over the references of `content`. */
  lemma AllUnresolvedUnchanged(content: string, resolve: Resolver, name: Namer)
    requires forall k :: 0 <= k < |Refs(content)| ==> resolve(Refs(content)[k]).None?
    ensures RewriteAll(content, resolve, name) == Rewritten(content, [])
  {
    NothingResolvedUnchanged(content, Refs(content), |Refs(content)|, resolve, name);
  }

  /** `RewriteKeepsPrefix` for the whole loop over the references of `content`, for a text
      that starts with one of two prefixes without `!`. */
  lemma AllKeepPrefix(content: string, resolve: Resolver, name: Namer, p: string, q: string)
    requires StartsWith(content, p) || StartsWith(content, q)
    requires '!' !in p && '!' !in q
    ensures StartsWith(RewriteAll(content, resolve, name).text, p) || StartsWith(RewriteAll(content, resolve, name).text, q)
  {
    if StartsWith(content, p) {
      RewriteKeepsPrefix(content, Refs(content), |Refs(content)|, resolve, name, p);
    } else {
      RewriteKeepsPrefix(content, Refs(content), |Refs(content)|, resolve, name, q);
    }
  }

  /** The edit step for one reference: a resolved one adds the edit replacing its matched
      text by the published reference to its copy; any other adds nothing. */
  lemma StepEdits(refs: seq<ImageRef>, n: nat, resolve: Resolver, name: Namer)
    requires 0 < n <= |refs|
    ensures var r := refs[n - 1];
      match resolve(r)
      case None => EditsFirst(refs, n, resolve, name) == EditsFirst(refs, n - 1, resolve, name)
      case Some(src) =>
        EditsFirst(refs, n, resolve, name)
          == EditsFirst(refs, n - 1, resolve, name) + [Edit(Render(r), Published(AltText(r), name(n - 1, src)))]
  {
  }

  /** The copy step for one reference: a resolved one adds its copy; any other adds nothing. */
  lemma StepCopies(refs: seq<ImageRef>, n: nat, resolve: Resolver, name: Namer)
    requires 0 < n <= |refs|
    ensures match resolve(refs[n - 1])
      case None => CopiesFirst(refs, n, resolve, name) == CopiesFirst(refs, n - 1, resolve, name)
      case Some(src) =>
        CopiesFirst(refs, n, resolve, name)
          == CopiesFirst(refs, n - 1, resolve, name) + [Copy(n - 1, src, name(n - 1, src))]
  {
  }

  /** One iteration of the loop: a resolved reference replaces every occurrence of its
      matched text in the text so far and is copied; any other changes nothing. */
  lemma RewriteStep(content: string, refs: seq<ImageRef>, n: nat, resolve: Resolver, name: Namer)
    requires 0 < n <= |refs|
    ensures var r, before := refs[n - 1], RewriteFirst(content, refs, n - 1, resolve, name);
      match resolve(r)
      case None => RewriteFirst(content, refs, n, resolve, name) == before
      case Some(src) =>
        RewriteFirst(content, refs, n, resolve, name)
          == Rewritten(ReplaceAll(before.text, Render(r), Published(AltText(r), name(n - 1, src))),
                       before.copies + [Copy(n - 1, src, name(n - 1, src))])
  {
    StepEdits(refs, n, resolve, name);
    StepCopies(refs, n, resolve, name);
    var r := refs[n - 1];
    match resolve(r)
    case None =>
    case Some(src) =>
      ApplyEditsSnoc(content, EditsFirst(refs, n - 1, resolve, name), Edit(Render(r), Published(AltText(r), name(n - 1, src))));
  }

  /** The loop body: from the state after `k` references, with the resolution of reference
      `k` and the name its copy gets, the body reaches the state after `k + 1`. */
  lemma LoopBody(content: string, refs: seq<ImageRef>, k: nat, resolve: Resolver, name: Namer,
                 processed: string, copies: seq<Copy>, found: Option<string>, newName: string)
    requires k < |refs| && Rewritten(processed, copies) == RewriteFirst(content, refs, k, resolve, name)
    requires found == resolve(refs[k]) && (found.Some? ==> newName == name(k, found.value))
    ensures found.None? ==> Rewritten(processed, copies) == RewriteFirst(content, refs, k + 1, resolve, name)
    ensures found.Some? ==>
      Rewritten(ReplaceAll(processed, Render(refs[k]), Published(AltText(refs[k]), newName)),
                copies + [Copy(k, found.value, newName)])
      == RewriteFirst(content, refs, k + 1, resolve, name)
  {
    RewriteStep(content, refs, k + 1, resolve, name);
  }

  /** A resolved reference replaces every occurrence of its matched text in the text so far:
      the text between occurrences is kept, and each occurrence becomes the new reference. */
  lemma ResolvedReplacesAll(content: string, refs: seq<ImageRef>, n: nat, resolve: Resolver, name: Namer)
    requires 0 < n <= |refs| && resolve(refs[n - 1]).Some?
    ensures var r := refs[n - 1];
      TextFirst(content, refs, n, resolve, name)
      == JoinWith(Split(TextFirst(content, refs, n - 1, resolve, name), Render(r)),
                  Published(AltText(r), name(n - 1, resolve(r).value)))
  {
    var r := refs[n - 1];
    var e := Edit(Render(r), Published(AltText(r), name(n - 1, resolve(r).value)));
    StepEdits(refs, n, resolve, name);
    ApplyEditsSnoc(content, EditsFirst(refs, n - 1, resolve, name), e);
    ReplaceAllIsJoinOfSplit(TextFirst(content, refs, n - 1, resolve, name), e.pattern, e.replacement);
  }

  /** A later reference whose matched text no longer occurs (an identical earlier match
      already replaced it) leaves the text as it is; it still copies its image again. */
  lemma LaterDuplicateKeepsText(content: string, refs: seq<ImageRef>, n: nat, resolve: Resolver, name: Namer)
    requires 0 < n <= |refs|
    requires !Contains(TextFirst(content, refs, n - 1, resolve, name), Render(refs[n - 1]))
    ensures TextFirst(content, refs, n, resolve, name) == TextFirst(content, refs, n - 1, resolve, name)
    ensures |CopiesFirst(refs, n, resolve, name)|
      == |CopiesFirst(refs, n - 1, resolve, name)| + (if resolve(refs[n - 1]).Some? then 1 else 0)
  {
    var r := refs[n - 1];
    StepEdits(refs, n, resolve, name);
    match resolve(r)
    case None =>
    case Some(src) =>
      var e := Edit(Render(r), Published(AltText(r), name(n - 1, src)));
      ApplyEditsSnoc(content, EditsFirst(refs, n - 1, resolve, name), e);
      ReplaceAllAbsent(TextFirst(content, refs, n - 1, resolve, name), e.pattern, e.replacement);
  }

  /** The hypothesis of `LaterDuplicateKeepsText` is needed: when the name an image is copied
      under contains the reference's own matched text, the first replacement writes that text
      back, so a second, identical reference replaces again and the text grows. */
  lemma LaterDuplicateCanChangeText(r: ImageRef, resolve: Resolver, name: Namer)
    requires resolve(r).Some?
    requires Contains(name(0, resolve(r).value), Render(r)) && Contains(name(1, resolve(r).value), Render(r))
    ensures TextFirst(Render(r), [r, r], 2, resolve, name) != TextFirst(Render(r), [r, r], 1, resolve, name)
  {
    var t, src := Render(r), resolve(r).value;
    var p0, p1 := Published(AltText(r), name(0, src)), Published(AltText(r), name(1, src));
    RewriteStep(t, [r, r], 1, resolve, name);
    RewriteStep(t, [r, r], 2, resolve, name);
    assert t[..|t|] == t;
    assert ReplaceAll(t[|t|..], t, p0) == [];
    assert TextFirst(t, [r, r], 1, resolve, name) == p0;
    ContainsWithin("![" + AltText(r) + "](/images/", name(0, src), ")", t);
    assert p0 == "![" + AltText(r) + "](/images/" + name(0, src) + ")";
    assert |p1| > |name(1, src)| >= |t|;
    ReplaceAllLength(p0, t, p1);
  }

  /** A prefix without `!` (every matched text starts with one) is kept through the loop. */
  lemma RewriteKeepsPrefix(content: string, refs: seq<ImageRef>, n: nat,
                           resolve: Resolver, name: Namer, p: string)
    requires n <= |refs| && StartsWith(content, p) && '!' !in p
    ensures StartsWith(TextFirst(content, refs, n, resolve, name), p)
  {
    EditsKeepPrefix(content, EditsFirst(refs, n, resolve, name), p);
  }

  /** A text that is one whole reference, resolved, becomes exactly the published reference. */
  lemma WholeReferenceRewritten(r: ImageRef, resolve: Resolver, name: Namer)
    requires WellFormed(r) && r.start == 0 && r.end == |Render(r)|
    requires Refs(Render(r)) == [r] && resolve(r).Some?
    ensures RewriteAll(Render(r), resolve, name)
      == Rewritten(Published(AltText(r), name(0, resolve(r).value)), [Copy(0, resolve(r).value, name(0, resolve(r).value))])
  {
    var t := Render(r);
    var p := Published(AltText(r), name(0, resolve(r).value));
    assert t[..|t|] == t;
    assert ReplaceAll(t[|t|..], t, p) == [];
    assert ReplaceAll(t, t, p) == p;
    StepEdits([r], 1, resolve, name);
    StepCopies([r], 1, resolve, name);
    ApplyEditsSnoc(t, [], Edit(t, p));
  }
}
