/** The subset of `pathlib` the scripts use, on POSIX path strings: `/` joins,
    `.name`, `.parent`, `.stem`, `.suffix` and `os.path.isabs`. The current directory
    `Path(".")` is written as the empty string. */
module Paths {
  import opened Text

  /** `s.rfind(c, 0, i)`: index of the last `c` in `s` before position `i`, or -1 when
      there is none. */
  function LastBefore(s: string, c: char, i: nat): (k: int)
    requires i <= |s|
    ensures -1 <= k < i
    ensures 0 <= k ==> s[k] == c
    decreases i
  {
    if i == 0 then -1
    else if s[i - 1] == c then i - 1
    else LastBefore(s, c, i - 1)
  }

  /** No `c` lies between the one `LastBefore` finds and `i`. */
  lemma {:induction false} LastBeforeIsLast(s: string, c: char, i: nat)
    requires i <= |s|
    ensures forall j :: LastBefore(s, c, i) < j < i ==> s[j] != c
    decreases i
  {
    if i > 0 && s[i - 1] != c {
      LastBeforeIsLast(s, c, i - 1);
    }
  }

  /** Conversely, a `c` (or -1) with no `c` after it before `i` is what `LastBefore` finds. */
  lemma {:induction false} LastBeforeIs(s: string, c: char, i: nat, k: int)
    requires -1 <= k < i <= |s|
    requires 0 <= k ==> s[k] == c
    requires forall j :: k < j < i ==> s[j] != c
    ensures LastBefore(s, c, i) == k
    decreases i
  {
    if i > 0 && s[i - 1] != c {
      LastBeforeIs(s, c, i - 1, k);
    }
  }

  /** `s.rfind(c)`: index of the last `c` in `s`, or -1 when there is none. */
  function LastIndex(s: string, c: char): (k: int)
    ensures -1 <= k < |s|
    ensures 0 <= k ==> s[k] == c
  {
    LastBefore(s, c, |s|)
  }

  /** No `c` follows the one `LastIndex` finds. */
  lemma LastIndexIsLast(s: string, c: char)
    ensures forall j :: LastIndex(s, c) < j < |s| ==> s[j] != c
  {
    LastBeforeIsLast(s, c, |s|);
  }

  /** A `c` (or -1) with no `c` after it is what `LastIndex` finds. */
  lemma LastIndexIs(s: string, c: char, k: int)
    requires -1 <= k < |s|
    requires 0 <= k ==> s[k] == c
    requires forall j :: k < j < |s| ==> s[j] != c
    ensures LastIndex(s, c) == k
  {
    LastBeforeIs(s, c, |s|, k);
  }

  /** `Path(p).name`: the last component. */
  function Name(p: string): string {
    p[LastIndex(p, '/') + 1..]
  }

  /** The name is a final piece of the path holding no `/`. */
  lemma NameIsLast(p: string)
    ensures '/' !in Name(p)
    ensures EndsWith(p, Name(p))
  {
    LastIndexIsLast(p, '/');
  }

  /** `Path(p).parent`: everything before the last component. */
  function Parent(p: string): string {
    var k := LastIndex(p, '/');
    if k < 0 then "" else if k == 0 then "/" else p[..k]
  }

  /** `Path(d) / x` for a relative `x`. */
  function Join(d: string, x: string): string {
    if d == "" then x else if EndsWith(d, "/") then d + x else d + "/" + x
  }

  /** `os.path.isabs(p)` on POSIX. */
  predicate IsAbsolute(p: string) {
    StartsWith(p, "/")
  }

  /** A name has a suffix when its last dot is neither its first nor its last character. */
  predicate HasSuffix(n: string) {
    0 < LastIndex(n, '.') < |n| - 1
  }

  /** `Path(p).stem`: the name without its suffix. */
  function Stem(p: string): string {
    var n := Name(p);
    if HasSuffix(n) then n[..LastIndex(n, '.')] else n
  }

  /** `Path(p).suffix`: the final `.`-part of the name, or empty. */
  function Suffix(p: string): string {
    var n := Name(p);
    if HasSuffix(n) then n[LastIndex(n, '.')..] else ""
  }

  /** The stem and the suffix make up the name; the stem holds no `/`; the suffix, when
      there is one, starts with its only dot; a name is empty only with its stem. */
  lemma StemSuffixName(p: string)
    ensures Stem(p) + Suffix(p) == Name(p)
    ensures '/' !in Stem(p)
    ensures Suffix(p) != "" ==> Suffix(p)[0] == '.' && '.' !in Suffix(p)[1..]
    ensures Stem(p) == "" <==> Name(p) == ""
  {
    var n := Name(p);
    NameIsLast(p);
    LastIndexIsLast(n, '.');
    if HasSuffix(n) {
      assert n[..LastIndex(n, '.')] + n[LastIndex(n, '.')..] == n;
      assert Stem(p) == n[..LastIndex(n, '.')];
      assert forall c :: c in Stem(p) ==> c in n;
    } else {
      assert Stem(p) == n;
    }
  }

  /** Joining a plain name (non-empty, no `/`) below a directory gives a path whose name is
      that name and whose parent is that directory (when it is not the root or `.`). */
  lemma JoinName(d: string, x: string)
    requires x != "" && '/' !in x
    ensures Name(Join(d, x)) == x
    ensures d != "" && !EndsWith(d, "/") ==> Parent(Join(d, x)) == d
  {
    var p := Join(d, x);
    if d == "" {
      LastIndexIs(x, '/', -1);
    } else {
      var k := if EndsWith(d, "/") then |d| - 1 else |d|;
      var dir := if EndsWith(d, "/") then d else d + "/";
      assert p == dir + x && |dir| == k + 1;
      assert p[k] == '/';
      forall j | k < j < |p| ensures p[j] != '/' {
        assert p[j] == x[j - (k + 1)];
      }
      LastIndexIs(p, '/', k);
      assert p[k + 1..] == x;
      assert !EndsWith(d, "/") ==> p[..k] == d;
    }
  }
}
