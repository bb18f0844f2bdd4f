/** The two image-reference patterns both sync scripts search for, as a lexer:
      Standard  `!\[([^\]]*)\]\(([^)]+)\)`   -- `![alt](path)`
      Embed     `!\[\[([^\]]+)\]\]`          -- `![[path]]`
    and `re.finditer`, which reports the leftmost match, resumes after its end and
    never reports overlapping matches. */
module ImageRefs {
  import opened Wrappers
  import opened Text

  datatype Form = Standard | Embed

  /** A match: its form, the span `[start, end)` of the original text it covers, the
      captured alt text (`alt`, empty for an embed) and the captured path (`target`). */
  datatype ImageRef = ImageRef(form: Form, start: nat, end: nat, alt: string, target: string)

  /** The text a reference is written as, `match.group(0)`. */
  function Render(r: ImageRef): (s: string)
    ensures |s| >= 5 && s[0] == '!'
  {
    match r.form
    case Standard => "![" + r.alt + "](" + r.target + ")"
    case Embed => "![[" + r.target + "]]"
  }

  /** What the character classes of the two patterns admit in the captured groups. */
  predicate WellFormed(r: ImageRef) {
    match r.form
    case Standard => ']' !in r.alt && r.target != [] && ')' !in r.target
    case Embed => r.alt == [] && r.target != [] && ']' !in r.target
  }

  /** The Markdown the scripts write for a copied image: `![alt](/images/<name>)`. */
  function Published(alt: string, name: string): string {
    "![" + alt + "](/images/" + name + ")"
  }

  /** The reference written is the standard form of one whose target is `/images/<name>`. */
  lemma PublishedIsStandard(alt: string, name: string)
    ensures Published(alt, name) == Render(ImageRef(Standard, 0, |Published(alt, name)|, alt, "/images/" + name))
  {
  }

  /** Distinct names are published as distinct references. */
  lemma PublishedInjective(alt: string, a: string, b: string)
    requires Published(alt, a) == Published(alt, b)
    ensures a == b
  {
    var p := Published(alt, a);
    var m := 12 + |alt|;
    assert p[m..|p| - 1] == a;
    assert Published(alt, b)[m..|p| - 1] == b;
  }

  /** Index of the first `c` in `s` at or after `i`, or `|s|` when there is none. */
  function IndexOf(s: string, c: char, i: nat): (k: nat)
    requires i <= |s|
    ensures i <= k <= |s|
    ensures k < |s| ==> s[k] == c
    decreases |s| - i
  {
    if i == |s| || s[i] == c then i else IndexOf(s, c, i + 1)
  }

  /** `IndexOf` passes over no `c`. */
  lemma {:induction false} IndexOfSkips(s: string, c: char, i: nat)
    requires i <= |s|
    ensures forall j :: i <= j < IndexOf(s, c, i) ==> s[j] != c
    decreases |s| - i
  {
    if i < |s| && s[i] != c {
      IndexOfSkips(s, c, i + 1);
    }
  }

  /** The standard pattern anchored at `i`. `[^\]]*` can only stop at the first `]`, and
      `[^)]+` only at the first `)`, so no backtracking alternative exists. */
  function StandardAt(s: string, i: nat): Option<ImageRef>
    requires i <= |s|
  {
    if i + 2 <= |s| && s[i] == '!' && s[i + 1] == '[' then
      var j := IndexOf(s, ']', i + 2);
      if j + 1 < |s| && s[j + 1] == '(' then
        var k := IndexOf(s, ')', j + 2);
        if j + 2 < k < |s| then Some(ImageRef(Standard, i, k + 1, s[i + 2..j], s[j + 2..k]))
        else None
      else None
    else None
  }

  /** The embed pattern anchored at `i`. */
  function EmbedAt(s: string, i: nat): Option<ImageRef>
    requires i <= |s|
  {
    if i + 3 <= |s| && s[i] == '!' && s[i + 1] == '[' && s[i + 2] == '[' then
      var j := IndexOf(s, ']', i + 3);
      if i + 3 < j && j + 1 < |s| && s[j + 1] == ']' then Some(ImageRef(Embed, i, j + 2, [], s[i + 3..j]))
      else None
    else None
  }

  function MatchAt(form: Form, s: string, i: nat): Option<ImageRef>
    requires i <= |s|
  {
    match form
    case Standard => StandardAt(s, i)
    case Embed => EmbedAt(s, i)
  }

  /** A match found at `i` starts there and ends after it, within the text. */
  lemma MatchAtAdvances(form: Form, s: string, i: nat)
    requires i <= |s|
    requires MatchAt(form, s, i).Some?
    ensures MatchAt(form, s, i).value.start == i && i < MatchAt(form, s, i).value.end <= |s|
  {
  }

  /** A match found at `i` is a well-formed reference of that form written at `i`. */
  lemma MatchAtSound(form: Form, s: string, i: nat)
    requires i <= |s|
    requires MatchAt(form, s, i).Some?
    ensures var r := MatchAt(form, s, i).value;
      r.form == form && r.start == i && i < r.end <= |s| && WellFormed(r)
      && r.end == i + |Render(r)| && s[i..r.end] == Render(r)
  {
    if form == Standard {
      StandardAtSound(s, i);
    } else {
      EmbedAtSound(s, i);
    }
  }

  lemma StandardAtSound(s: string, i: nat)
    requires i <= |s|
    requires StandardAt(s, i).Some?
    ensures var r := StandardAt(s, i).value;
      r.form == Standard && r.start == i && i < r.end <= |s| && WellFormed(r)
      && r.end == i + |Render(r)| && s[i..r.end] == Render(r)
  {
    var r := StandardAt(s, i).value;
    var j := IndexOf(s, ']', i + 2);
    var k := IndexOf(s, ')', j + 2);
    IndexOfSkips(s, ']', i + 2);
    IndexOfSkips(s, ')', j + 2);
    assert r == ImageRef(Standard, i, k + 1, s[i + 2..j], s[j + 2..k]);
    assert WellFormed(r) by {
      RunFree(s, ']', i + 2, j);
      RunFree(s, ')', j + 2, k);
    }
    StandardText(s, i, j, k);
  }

  lemma StandardText(s: string, i: nat, j: nat, k: nat)
    requires i + 2 <= j && j + 2 <= k < |s|
    requires s[i] == '!' && s[i + 1] == '[' && s[j] == ']' && s[j + 1] == '(' && s[k] == ')'
    ensures s[i..k + 1] == "![" + s[i + 2..j] + "](" + s[j + 2..k] + ")"
  {
    assert s[i..i + 2] == "![" && s[j..j + 2] == "](" && s[k..k + 1] == ")";
    SliceSplit(s, i, i + 2, j);
    SliceSplit(s, i, j, j + 2);
    SliceSplit(s, i, j + 2, k);
    SliceSplit(s, i, k, k + 1);
  }

  /** The characters a scan for `c` passes over form a run without `c`. */
  lemma RunFree(s: string, c: char, i: nat, k: nat)
    requires i <= k <= |s|
    requires forall q :: i <= q < k ==> s[q] != c
    ensures c !in s[i..k]
  {
    forall q | 0 <= q < k - i ensures s[i..k][q] != c {
      assert s[i..k][q] == s[i + q];
    }
  }

  lemma EmbedAtSound(s: string, i: nat)
    requires i <= |s|
    requires EmbedAt(s, i).Some?
    ensures var r := EmbedAt(s, i).value;
      r.form == Embed && r.start == i && i < r.end <= |s| && WellFormed(r)
      && r.end == i + |Render(r)| && s[i..r.end] == Render(r)
  {
    var r := EmbedAt(s, i).value;
    var j := IndexOf(s, ']', i + 3);
    IndexOfSkips(s, ']', i + 3);
    assert r == ImageRef(Embed, i, j + 2, [], s[i + 3..j]);
    assert WellFormed(r) by {
      RunFree(s, ']', i + 3, j);
    }
    EmbedText(s, i, j);
  }

  lemma EmbedText(s: string, i: nat, j: nat)
    requires i + 3 <= j && j + 1 < |s|
    requires s[i] == '!' && s[i + 1] == '[' && s[i + 2] == '[' && s[j] == ']' && s[j + 1] == ']'
    ensures s[i..j + 2] == "![[" + s[i + 3..j] + "]]"
  {
    assert s[i..i + 3] == "![[" && s[j..j + 2] == "]]";
    SliceSplit(s, i, i + 3, j);
    SliceSplit(s, i, j, j + 2);
  }

  /** Conversely, a well-formed reference written at `i` is exactly what is matched there:
      the patterns recognise nothing else and never stop short of it. */
  lemma MatchAtComplete(s: string, i: nat, r: ImageRef)
    requires WellFormed(r) && r.start == i && r.end == i + |Render(r)|
    requires OccursAt(s, Render(r), i)
    ensures MatchAt(r.form, s, i) == Some(r)
  {
    if r.form == Standard {
      StandardAtComplete(s, i, r);
    } else {
      EmbedAtComplete(s, i, r);
    }
  }

  lemma StandardAtComplete(s: string, i: nat, r: ImageRef)
    requires r.form == Standard && WellFormed(r) && r.start == i && r.end == i + |Render(r)|
    requires OccursAt(s, Render(r), i)
    ensures StandardAt(s, i) == Some(r)
  {
    var a, b := |r.alt|, |r.target|;
    var j, k := i + 2 + a, i + 4 + a + b;
    StandardInText(s, i, r.alt, r.target);
    RunUpTo(s, ']', i + 2, j, r.alt);
    RunUpTo(s, ')', j + 2, k, r.target);
    StandardAtIs(s, i, j, k);
  }

  lemma StandardInText(s: string, i: nat, alt: string, target: string)
    requires OccursAt(s, "![" + alt + "](" + target + ")", i)
    ensures var j, k := i + 2 + |alt|, i + 4 + |alt| + |target|;
      k < |s| && s[i] == '!' && s[i + 1] == '[' && s[j] == ']' && s[j + 1] == '(' && s[k] == ')'
      && s[i + 2..j] == alt && s[j + 2..k] == target
  {
    var a, b := |alt|, |target|;
    var w := s[i..i + 5 + a + b];
    assert w == "![" + alt + "](" + target + ")";
    StandardPieces(w, alt, target);
    SliceOfSlice(s, i, 5 + a + b, 2, 2 + a);
    SliceOfSlice(s, i, 5 + a + b, 4 + a, 4 + a + b);
  }

  lemma StandardAtIs(s: string, i: nat, j: nat, k: nat)
    requires i + 2 <= |s| && s[i] == '!' && s[i + 1] == '['
    requires i + 2 <= j && IndexOf(s, ']', i + 2) == j && j + 1 < |s| && s[j + 1] == '('
    requires IndexOf(s, ')', j + 2) == k && j + 2 < k < |s|
    ensures StandardAt(s, i) == Some(ImageRef(Standard, i, k + 1, s[i + 2..j], s[j + 2..k]))
  {
  }

  /** A run free of `c` followed by `c` ends where `IndexOf` stops. */
  lemma RunUpTo(s: string, c: char, i: nat, k: nat, run: string)
    requires i <= k < |s| && s[k] == c && s[i..k] == run && c !in run
    ensures IndexOf(s, c, i) == k
  {
    forall q | i <= q < k ensures s[q] != c {
      assert s[q] == run[q - i];
    }
    IndexOfIs(s, c, i, k);
  }

  lemma StandardPieces(t: string, alt: string, target: string)
    requires t == "![" + alt + "](" + target + ")"
    ensures |t| == 5 + |alt| + |target| && t[0] == '!' && t[1] == '[' && t[2..2 + |alt|] == alt
      && t[2 + |alt|] == ']' && t[3 + |alt|] == '(' && t[4 + |alt|..4 + |alt| + |target|] == target
      && t[4 + |alt| + |target|] == ')'
  {
  }

  lemma EmbedPieces(t: string, target: string)
    requires t == "![[" + target + "]]"
    ensures |t| == 5 + |target| && t[0] == '!' && t[1] == '[' && t[2] == '[' && t[3..3 + |target|] == target
      && t[3 + |target|] == ']' && t[4 + |target|] == ']'
  {
  }

  lemma EmbedAtComplete(s: string, i: nat, r: ImageRef)
    requires r.form == Embed && WellFormed(r) && r.start == i && r.end == i + |Render(r)|
    requires OccursAt(s, Render(r), i)
    ensures EmbedAt(s, i) == Some(r)
  {
    var b := |r.target|;
    var j := i + 3 + b;
    var w := s[i..i + 5 + b];
    assert w == Render(r) == "![[" + r.target + "]]";
    EmbedPieces(w, r.target);
    assert s[i] == w[0] && s[i + 1] == w[1] && s[i + 2] == w[2] && s[j] == w[3 + b] && s[j + 1] == w[4 + b];
    SliceOfSlice(s, i, 5 + b, 3, 3 + b);
    RunUpTo(s, ']', i + 3, j, r.target);
  }

  lemma SliceSplit(s: string, a: nat, b: nat, c: nat)
    requires a <= b <= c <= |s|
    ensures s[a..c] == s[a..b] + s[b..c]
  {
  }

  lemma SliceOfSlice(s: string, i: nat, n: nat, p: nat, q: nat)
    requires i + n <= |s| && p <= q <= n
    ensures s[i..i + n][p..q] == s[i + p..i + q]
  {
    var u, v := s[i..i + n][p..q], s[i + p..i + q];
    assert |u| == |v|;
    forall k | 0 <= k < |u| ensures u[k] == v[k] {
      assert u[k] == s[i..i + n][p + k] == s[i + p + k];
    }
  }

  lemma {:induction false} IndexOfIs(s: string, c: char, i: nat, k: nat)
    requires i <= k < |s| && s[k] == c
    requires forall j :: i <= j < k ==> s[j] != c
    ensures IndexOf(s, c, i) == k
    decreases k - i
  {
    if i < k {
      IndexOfIs(s, c, i + 1, k);
    }
  }

  /** `re.finditer(pattern, s)` from position `i` on. */
  function FindAll(form: Form, s: string, i: nat): seq<ImageRef>
    requires i <= |s|
    decreases |s| - i
  {
    if i == |s| then []
    else match MatchAt(form, s, i)
      case Some(r) =>
        MatchAtAdvances(form, s, i);
        [r] + FindAll(form, s, r.end)
      case None => FindAll(form, s, i + 1)
  }

  /** Every match reported is a match of the pattern at its own start, at or after `i`. */
  lemma {:induction false} FindAllSound(form: Form, s: string, i: nat)
    requires i <= |s|
    ensures forall k :: 0 <= k < |FindAll(form, s, i)| ==>
      i <= FindAll(form, s, i)[k].start < FindAll(form, s, i)[k].end <= |s|
      && MatchAt(form, s, FindAll(form, s, i)[k].start) == Some(FindAll(form, s, i)[k])
    decreases |s| - i
  {
    if i < |s| {
      match MatchAt(form, s, i)
      case Some(r) =>
        MatchAtAdvances(form, s, i);
        FindAllSound(form, s, r.end);
        var rest := FindAll(form, s, r.end);
        var all := [r] + rest;
        assert FindAll(form, s, i) == all;
        forall k | 0 <= k < |all|
          ensures i <= all[k].start < all[k].end <= |s| && MatchAt(form, s, all[k].start) == Some(all[k])
        {
          if k > 0 {
            assert all[k] == rest[k - 1];
          }
        }
      case None =>
        FindAllSound(form, s, i + 1);
        assert FindAll(form, s, i) == FindAll(form, s, i + 1);
    }
  }

  /** Every match reported lies within the text, at or after `i`. */
  lemma {:induction false} FindAllBounds(form: Form, s: string, i: nat)
    requires i <= |s|
    ensures forall r :: r in FindAll(form, s, i) ==> i <= r.start < r.end <= |s|
    decreases |s| - i
  {
    if i < |s| {
      match MatchAt(form, s, i)
      case Some(r) =>
        MatchAtAdvances(form, s, i);
        FindAllBounds(form, s, r.end);
        assert FindAll(form, s, i) == [r] + FindAll(form, s, r.end);
      case None =>
        FindAllBounds(form, s, i + 1);
    }
  }

  /** The matches come in order of position and do not overlap. */
  lemma {:induction false} FindAllOrdered(form: Form, s: string, i: nat)
    requires i <= |s|
    ensures forall k :: 0 <= k < |FindAll(form, s, i)| - 1 ==>
      FindAll(form, s, i)[k].end <= FindAll(form, s, i)[k + 1].start
    decreases |s| - i
  {
    if i < |s| {
      match MatchAt(form, s, i)
      case Some(r) =>
        MatchAtAdvances(form, s, i);
        FindAllOrdered(form, s, r.end);
        FindAllBounds(form, s, r.end);
        var rest := FindAll(form, s, r.end);
        var all := [r] + rest;
        assert FindAll(form, s, i) == all;
        forall k | 0 <= k < |all| - 1 ensures all[k].end <= all[k + 1].start {
          if k == 0 {
            assert all[1] == rest[0] && rest[0] in rest;
          } else {
            assert all[k] == rest[k - 1] && all[k + 1] == rest[k];
          }
        }
      case None =>
        FindAllOrdered(form, s, i + 1);
        assert FindAll(form, s, i) == FindAll(form, s, i + 1);
    }
  }

  /** No position is missed: wherever the pattern matches, a reported match covers that
      position (it is that match, or an earlier one that overlaps it). */
  lemma {:induction false} FindAllComplete(form: Form, s: string, i: nat, p: nat)
    requires i <= p < |s| && MatchAt(form, s, p).Some?
    ensures exists r :: r in FindAll(form, s, i) && r.start <= p < r.end
    decreases |s| - i
  {
    match MatchAt(form, s, i)
    case Some(r) =>
      MatchAtAdvances(form, s, i);
      if p >= r.end {
        FindAllComplete(form, s, r.end, p);
      }
    case None =>
      FindAllComplete(form, s, i + 1, p);
  }

  /** A text without `(` holds no standard reference. */
  lemma NoParenNoStandard(s: string)
    requires '(' !in s
    ensures FindAll(Standard, s, 0) == []
  {
    assert forall p :: 0 <= p < |s| ==> MatchAt(Standard, s, p).None?;
    FindAllEmpty(Standard, s);
  }

  /** A text that is one embed, whose path holds no `(`, holds just that reference. */
  lemma LoneEmbedRefs(t: string)
    requires t != [] && ']' !in t && '(' !in t
    ensures Refs("![[" + t + "]]") == [ImageRef(Embed, 0, |t| + 5, [], t)]
  {
    var s := "![[" + t + "]]";
    var r := ImageRef(Embed, 0, |t| + 5, [], t);
    assert OccursAt(s, Render(r), 0) by {
      assert s[0..|s|] == s;
    }
    MatchAtComplete(s, 0, r);
    assert FindAll(Embed, s, |s|) == [];
    assert FindAll(Embed, s, 0) == [r];
    assert '(' !in s by {
      assert forall c :: c in s ==> c in t || c in "![[]]";
    }
    NoParenNoStandard(s);
  }

  /** `finditer` yields nothing exactly when the pattern matches nowhere. */
  lemma FindAllEmpty(form: Form, s: string)
    ensures FindAll(form, s, 0) == [] <==> forall p :: 0 <= p < |s| ==> MatchAt(form, s, p).None?
  {
    if FindAll(form, s, 0) != [] {
      FindAllSound(form, s, 0);
      var r := FindAll(form, s, 0)[0];
      assert MatchAt(form, s, r.start).Some?;
    }
    forall p | 0 <= p < |s| && MatchAt(form, s, p).Some? ensures FindAll(form, s, 0) != [] {
      FindAllComplete(form, s, 0, p);
    }
  }

  /** All matches of the standard pattern, then all matches of the embed pattern, each
      searched in the original text. */
  function Refs(s: string): seq<ImageRef> {
    FindAll(Standard, s, 0) + FindAll(Embed, s, 0)
  }

  /** Every reference `Refs` reports is a well-formed reference written where it says. */
  lemma RefsSound(s: string)
    ensures forall r :: r in Refs(s) ==>
      WellFormed(r) && r.end <= |s| && r.end == r.start + |Render(r)| && s[r.start..r.end] == Render(r)
  {
    FindAllSound(Standard, s, 0);
    FindAllSound(Embed, s, 0);
    forall r | r in Refs(s)
      ensures WellFormed(r) && r.end <= |s| && r.end == r.start + |Render(r)| && s[r.start..r.end] == Render(r)
    {
      var a, b := FindAll(Standard, s, 0), FindAll(Embed, s, 0);
      var k :| 0 <= k < |a + b| && (a + b)[k] == r;
      if k < |a| {
        assert a[k] == r;
        MatchAtSound(Standard, s, r.start);
      } else {
        assert b[k - |a|] == r;
        MatchAtSound(Embed, s, r.start);
      }
    }
  }

  /** A text without `![` holds no image reference at all. */
  lemma NoBangBracketNoRefs(s: string)
    requires !Contains(s, "![")
    ensures Refs(s) == []
  {
    forall p | 0 <= p < |s| ensures StandardAt(s, p).None? && EmbedAt(s, p).None? {
      assert !OccursAt(s, "![", p);
      assert p + 2 <= |s| ==> s[p..p + 2] == [s[p], s[p + 1]];
    }
    FindAllEmpty(Standard, s);
    FindAllEmpty(Embed, s);
  }
}
