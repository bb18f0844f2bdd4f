/** The pieces of Python's `str` that the sync scripts rely on: prefix and substring
    tests, ASCII case mapping, `str.replace`, `str.strip` emptiness and decimal rendering. */
module Text {

  predicate StartsWith(s: string, p: string) {
    |p| <= |s| && s[..|p|] == p
  }

  predicate EndsWith(s: string, p: string) {
    |p| <= |s| && s[|s| - |p|..] == p
  }

  /** `t` occurs in `s` starting at index `i`. */
  predicate OccursAt(s: string, t: string, i: nat) {
    i + |t| <= |s| && s[i..i + |t|] == t
  }

  /** Python's `t in s`. */
  predicate Contains(s: string, t: string) {
    exists i: nat | i <= |s| :: OccursAt(s, t, i)
  }

  lemma ContainsMiddle(a: string, t: string, b: string)
    ensures Contains(a + t + b, t)
  {
    assert OccursAt(a + t + b, t, |a|);
  }

  /** What occurs in `m` occurs in any text `m` is part of. */
  lemma ContainsWithin(a: string, m: string, b: string, t: string)
    requires Contains(m, t)
    ensures Contains(a + m + b, t)
  {
    var i: nat :| i <= |m| && OccursAt(m, t, i);
    assert (a + m + b)[|a| + i..|a| + i + |t|] == m[i..i + |t|];
    assert OccursAt(a + m + b, t, |a| + i);
  }

  // ---------------------------------------------------------------------------
  // ASCII case mapping

  predicate IsUpper(c: char) { 'A' <= c <= 'Z' }
  predicate IsLower(c: char) { 'a' <= c <= 'z' }
  predicate IsLetter(c: char) { IsUpper(c) || IsLower(c) }

  function LowerChar(c: char): (r: char)
    ensures IsLetter(c) <==> IsLetter(r)
    ensures !IsUpper(r)
    ensures !IsLetter(c) ==> r == c
  {
    if IsUpper(c) then (c as int + 32) as char else c
  }

  function UpperChar(c: char): (r: char)
    ensures IsLetter(c) <==> IsLetter(r)
    ensures !IsLower(r)
    ensures LowerChar(r) == LowerChar(c)
  {
    if IsLower(c) then (c as int - 32) as char else c
  }

  /** `str.lower()` on the ASCII letters; every other character is kept. */
  function Lower(s: string): (r: string)
    ensures |r| == |s|
    ensures forall i :: 0 <= i < |s| ==> r[i] == LowerChar(s[i])
  {
    seq(|s|, i requires 0 <= i < |s| => LowerChar(s[i]))
  }

  lemma LowerAppend(a: string, b: string)
    ensures Lower(a + b) == Lower(a) + Lower(b)
  {
  }

  /** A marker of any letter case, anywhere in `a + m + b`, is found by a lower-case search. */
  lemma {:induction false} LowerContains(a: string, m: string, b: string, t: string)
    requires Lower(m) == t
    ensures Contains(Lower(a + m + b), t)
  {
    LowerAppend(a + m, b);
    LowerAppend(a, m);
    ContainsMiddle(Lower(a), t, Lower(b));
  }

  /** Python's `str.title()` on ASCII: a letter right after a letter is lower-cased, any
      other letter upper-cased; every other character is kept. */
  function TitleChar(s: string, i: nat): char
    requires i < |s|
  {
    if !IsLetter(s[i]) then s[i]
    else if i > 0 && IsLetter(s[i - 1]) then LowerChar(s[i])
    else UpperChar(s[i])
  }

  /** Every word (run of letters) starts with a capital and goes on in lower case; the
      letters stay the same letters and every other character is kept. */
  function TitleCase(s: string): (t: string)
    ensures |t| == |s|
    ensures forall i :: 0 <= i < |s| ==>
      (IsLetter(t[i]) <==> IsLetter(s[i])) && LowerChar(t[i]) == LowerChar(s[i])
    ensures forall i :: 0 <= i < |s| && !IsLetter(s[i]) ==> t[i] == s[i]
    ensures forall i :: 0 <= i < |s| && IsLetter(s[i]) ==>
      (IsUpper(t[i]) <==> i == 0 || !IsLetter(s[i - 1]))
  {
    seq(|s|, i requires 0 <= i < |s| => TitleChar(s, i))
  }

  /** Two letters that agree in lower case and in whether they are capitals are equal. */
  lemma SameLetter(a: char, b: char)
    requires IsLetter(a) && IsLetter(b) && LowerChar(a) == LowerChar(b) && (IsUpper(a) <==> IsUpper(b))
    ensures a == b
  {
  }

  /** Title-casing a title changes nothing. */
  lemma TitleCaseIdempotent(s: string)
    ensures TitleCase(TitleCase(s)) == TitleCase(s)
  {
    var t := TitleCase(s);
    var u := TitleCase(t);
    forall i | 0 <= i < |s| ensures u[i] == t[i] {
      if IsLetter(s[i]) {
        SameLetter(u[i], t[i]);
      }
    }
  }

  // ---------------------------------------------------------------------------
  // str.replace and str.split

  /** Python's `s.replace(t, r)`: scanning from the left, every occurrence of `t` that does
      not overlap an earlier replaced one is replaced by `r`. */
  function ReplaceAll(s: string, t: string, r: string): string
    requires |t| > 0
    decreases |s|
  {
    if |s| < |t| then s
    else if s[..|t|] == t then r + ReplaceAll(s[|t|..], t, r)
    else [s[0]] + ReplaceAll(s[1..], t, r)
  }

  /** Python's `s.split(t)`: the maximal pieces between the occurrences of `t`. */
  function Split(s: string, t: string): (pieces: seq<string>)
    requires |t| > 0
    ensures |pieces| > 0
    decreases |s|
  {
    if |s| < |t| then [s]
    else if s[..|t|] == t then [[]] + Split(s[|t|..], t)
    else
      var rest := Split(s[1..], t);
      [[s[0]] + rest[0]] + rest[1..]
  }

  /** Python's `sep.join(pieces)`. */
  function JoinWith(pieces: seq<string>, sep: string): string
    requires |pieces| > 0
    decreases |pieces|
  {
    if |pieces| == 1 then pieces[0] else pieces[0] + sep + JoinWith(pieces[1..], sep)
  }

  lemma {:induction false} SplitHeadIsPrefix(s: string, t: string)
    requires |t| > 0
    ensures StartsWith(s, Split(s, t)[0])
    decreases |s|
  {
    if |s| < |t| {
    } else if s[..|t|] == t {
    } else {
      SplitHeadIsPrefix(s[1..], t);
    }
  }

  /** No piece of a split contains the separator. */
  lemma {:induction false} SplitPiecesAvoidSeparator(s: string, t: string)
    requires |t| > 0
    ensures forall k :: 0 <= k < |Split(s, t)| ==> !Contains(Split(s, t)[k], t)
    decreases |s|
  {
    var pieces := Split(s, t);
    if |s| < |t| {
      assert pieces == [s];
    } else if s[..|t|] == t {
      SplitPiecesAvoidSeparator(s[|t|..], t);
      assert pieces == [[]] + Split(s[|t|..], t);
      forall k | 0 <= k < |pieces| ensures !Contains(pieces[k], t) {
        if k > 0 {
          assert pieces[k] == Split(s[|t|..], t)[k - 1];
        }
      }
    } else {
      var rest := Split(s[1..], t);
      SplitPiecesAvoidSeparator(s[1..], t);
      SplitHeadIsPrefix(s[1..], t);
      var head := [s[0]] + rest[0];
      assert pieces == [head] + rest[1..];
      assert head == s[..|head|];
      forall i: nat | i <= |head| ensures !OccursAt(head, t, i) {
        if i == 0 {
          assert !OccursAt(head, t, 0) by {
            if |t| <= |head| {
              assert head[..|t|] == s[..|t|];
            }
          }
        } else {
          assert OccursAt(head, t, i) ==> OccursAt(rest[0], t, i - 1) by {
            if OccursAt(head, t, i) {
              assert head[i..i + |t|] == rest[0][i - 1..i - 1 + |t|];
            }
          }
        }
      }
      forall k | 0 <= k < |pieces| ensures !Contains(pieces[k], t) {
        if k > 0 {
          assert pieces[k] == rest[k];
        }
      }
    }
  }

  /** `s.replace(t, r)` is `r.join(s.split(t))`: the text between the occurrences is kept
      and each occurrence, every one of them, becomes `r`. */
  lemma {:induction false} ReplaceAllIsJoinOfSplit(s: string, t: string, r: string)
    requires |t| > 0
    ensures ReplaceAll(s, t, r) == JoinWith(Split(s, t), r)
    decreases |s|
  {
    if |s| < |t| {
    } else if s[..|t|] == t {
      ReplaceAllIsJoinOfSplit(s[|t|..], t, r);
      var rest := Split(s[|t|..], t);
      assert Split(s, t) == [[]] + rest;
      assert ([[]] + rest)[1..] == rest;
    } else {
      ReplaceAllIsJoinOfSplit(s[1..], t, r);
      var rest := Split(s[1..], t);
      var pieces := [[s[0]] + rest[0]] + rest[1..];
      assert Split(s, t) == pieces;
      if |rest| == 1 {
      } else {
        assert pieces[1..] == rest[1..];
        assert JoinWith(rest, r) == rest[0] + r + JoinWith(rest[1..], r);
      }
    }
  }

  /** Replacing the separator by itself gives back the text: split and join are inverse. */
  lemma {:induction false} ReplaceAllSelf(s: string, t: string)
    requires |t| > 0
    ensures ReplaceAll(s, t, t) == s
    ensures JoinWith(Split(s, t), t) == s
    decreases |s|
  {
    if |s| < |t| {
    } else if s[..|t|] == t {
      ReplaceAllSelf(s[|t|..], t);
      assert t + s[|t|..] == s;
    } else {
      ReplaceAllSelf(s[1..], t);
      assert [s[0]] + s[1..] == s;
    }
    ReplaceAllIsJoinOfSplit(s, t, t);
  }

  /** A text in which `t` does not occur is returned as it is. */
  lemma {:induction false} ReplaceAllAbsent(s: string, t: string, r: string)
    requires |t| > 0
    requires !Contains(s, t)
    ensures ReplaceAll(s, t, r) == s
    decreases |s|
  {
    if |s| < |t| {
    } else {
      assert !OccursAt(s, t, 0);
      assert s[..|t|] != t;
      forall i: nat | i <= |s[1..]| ensures !OccursAt(s[1..], t, i) {
        assert OccursAt(s[1..], t, i) ==> OccursAt(s, t, i + 1);
      }
      ReplaceAllAbsent(s[1..], t, r);
      assert [s[0]] + s[1..] == s;
    }
  }

  /** Replacing one character by another changes exactly its occurrences, in place. */
  lemma {:induction false} ReplaceCharPointwise(s: string, a: char, b: char)
    ensures |ReplaceAll(s, [a], [b])| == |s|
    ensures forall i :: 0 <= i < |s| ==> ReplaceAll(s, [a], [b])[i] == if s[i] == a then b else s[i]
    decreases |s|
  {
    if |s| >= 1 {
      ReplaceCharPointwise(s[1..], a, b);
      var rest := ReplaceAll(s[1..], [a], [b]);
      var head := if s[0] == a then [b] else [s[0]];
      assert ReplaceAll(s, [a], [b]) == head + rest;
      forall i | 1 <= i < |s| ensures (head + rest)[i] == if s[i] == a then b else s[i] {
        assert (head + rest)[i] == rest[i - 1] && s[i] == s[1..][i - 1];
      }
    }
  }

  /** A replacement at least as long as the pattern never shortens the text, and one
      strictly longer lengthens every text in which the pattern occurs. */
  lemma {:induction false} ReplaceAllLength(s: string, t: string, r: string)
    requires 0 < |t| <= |r|
    ensures |ReplaceAll(s, t, r)| >= |s|
    ensures Contains(s, t) && |r| > |t| ==> |ReplaceAll(s, t, r)| > |s|
    decreases |s|
  {
    if |s| < |t| {
    } else if s[..|t|] == t {
      ReplaceAllLength(s[|t|..], t, r);
    } else {
      ReplaceAllLength(s[1..], t, r);
      if Contains(s, t) {
        var i: nat :| i <= |s| && OccursAt(s, t, i);
        assert i != 0;
        assert s[1..][i - 1..i - 1 + |t|] == s[i..i + |t|];
        assert OccursAt(s[1..], t, i - 1);
      }
    }
  }

  /** A prefix free of the first character of `t` survives replacing `t`. */
  lemma {:induction false} ReplaceKeepsPrefix(s: string, t: string, r: string, p: string)
    requires |t| > 0 && StartsWith(s, p) && t[0] !in p
    ensures StartsWith(ReplaceAll(s, t, r), p)
    decreases |p|
  {
    if p != [] && |s| >= |t| {
      assert s[0] == p[0] && s[..|t|] != t;
      ReplaceKeepsPrefix(s[1..], t, r, p[1..]);
      var rest := ReplaceAll(s[1..], t, r);
      assert ReplaceAll(s, t, r) == [s[0]] + rest;
      assert ([s[0]] + rest)[..|p|] == [p[0]] + rest[..|p| - 1];
      assert [p[0]] + p[1..] == p;
    }
  }

  // ---------------------------------------------------------------------------
  // str.strip() == ""

  /** The characters `str.isspace()` accepts, which `str.strip()` removes. */
  predicate IsSpace(c: char) {
    ('\t' <= c <= '\r') || ('\U{1C}' <= c <= '\U{1F}') || c == ' ' || c == '\U{85}' || c == '\U{A0}'
    || c == '\U{1680}' || ('\U{2000}' <= c <= '\U{200A}') || c == '\U{2028}' || c == '\U{2029}'
    || c == '\U{202F}' || c == '\U{205F}' || c == '\U{3000}'
  }

  /** `s.strip()` is non-empty. */
  predicate HasContent(s: string) {
    exists i | 0 <= i < |s| :: !IsSpace(s[i])
  }

  // ---------------------------------------------------------------------------
  // Decimal rendering of a count, as an f-string prints an int

  predicate IsDigit(c: char) { '0' <= c <= '9' }

  function DigitChar(d: nat): (c: char)
    requires d < 10
    ensures IsDigit(c)
  {
    ('0' as int + d) as char
  }

  function DigitValue(c: char): (d: nat)
    requires IsDigit(c)
    ensures d < 10
  {
    c as int - '0' as int
  }

  function NatToString(n: nat): (s: string)
    ensures |s| > 0
    ensures forall i :: 0 <= i < |s| ==> IsDigit(s[i])
    decreases n
  {
    if n < 10 then [DigitChar(n)] else NatToString(n / 10) + [DigitChar(n % 10)]
  }

  /** The value of a string of decimal digits. */
  function ParseNat(s: string): nat
    requires forall i :: 0 <= i < |s| ==> IsDigit(s[i])
    decreases |s|
  {
    if s == [] then 0 else 10 * ParseNat(s[..|s| - 1]) + DigitValue(s[|s| - 1])
  }

  /** The rendered count reads back as the count. */
  lemma {:induction false} ParseNatToString(n: nat)
    ensures ParseNat(NatToString(n)) == n
    decreases n
  {
    if n >= 10 {
      ParseNatToString(n / 10);
      var s := NatToString(n);
      assert s[..|s| - 1] == NatToString(n / 10);
    }
  }

  /** Distinct counts render differently. */
  lemma NatToStringInjective(m: nat, n: nat)
    requires NatToString(m) == NatToString(n)
    ensures m == n
  {
    ParseNatToString(m);
    ParseNatToString(n);
  }
}
