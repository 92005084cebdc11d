/**
 * Character and string helpers shared by the normalizer: whitespace
 * handling (the regular expression `\s+` and `str.strip`), ASCII case
 * mapping, substring search and removal.
 */
module Text {

  /** Whitespace as Python's `\s` and `str.strip` see it (the ASCII and Latin-1 part). */
  predicate IsSpace(c: char) {
    c == ' ' || ('\t' <= c <= '\r') || ('\U{1C}' <= c <= '\U{1F}') || c == '\U{85}' || c == '\U{A0}'
  }

  /** No two neighbouring characters are both whitespace. */
  predicate NoSpaceRun(s: string) {
    forall i :: 0 <= i < |s| - 1 ==> !(IsSpace(s[i]) && IsSpace(s[i + 1]))
  }

  /** The only whitespace character that occurs is the plain space. */
  predicate OnlyPlainSpace(s: string) {
    forall i :: 0 <= i < |s| && IsSpace(s[i]) ==> s[i] == ' '
  }

  /** Neither the first nor the last character is whitespace. */
  predicate NoEdgeSpace(s: string) {
    s == [] || (!IsSpace(s[0]) && !IsSpace(s[|s| - 1]))
  }

  /** The non-whitespace characters of `s`, in order. */
  function NonSpace(s: string): string {
    if s == [] then []
    else if IsSpace(s[0]) then NonSpace(s[1..])
    else [s[0]] + NonSpace(s[1..])
  }

  /** `s` with its leading whitespace removed. */
  function DropSpaces(s: string): (r: string)
    ensures |r| <= |s| && r == s[|s| - |r|..]
    ensures r == [] || !IsSpace(r[0])
    ensures forall i :: 0 <= i < |s| - |r| ==> IsSpace(s[i])
  {
    if s != [] && IsSpace(s[0]) then DropSpaces(s[1..]) else s
  }

  /** `s` with its trailing whitespace removed. */
  function DropTrailingSpaces(s: string): (r: string)
    ensures |r| <= |s| && r == s[..|r|]
    ensures r == [] || !IsSpace(r[|r| - 1])
    ensures forall i :: |r| <= i < |s| ==> IsSpace(s[i])
  {
    if s != [] && IsSpace(s[|s| - 1]) then DropTrailingSpaces(s[..|s| - 1]) else s
  }

  /** Python's `str.strip()`: a slice of `s` with no whitespace at either end. */
  function Strip(s: string): (r: string)
    ensures NoEdgeSpace(r)
  {
    DropTrailingSpaces(DropSpaces(s))
  }

  /**
   * The regular-expression replacement of `\s+` by a single space: every
   * maximal run of whitespace becomes one plain space.
   */
  function Collapse(s: string): (r: string)
    ensures |r| <= |s| && (r == [] <==> s == [])
    ensures r != [] ==> (IsSpace(r[0]) <==> IsSpace(s[0]))
    ensures NoSpaceRun(r) && OnlyPlainSpace(r)
    ensures NonSpace(r) == NonSpace(s)
    decreases |s|
  {
    if s == [] then []
    else if IsSpace(s[0]) then
      var rest := DropSpaces(s);
      NonSpaceOfSpaces(s, |s| - |rest|);
      [' '] + Collapse(rest)
    else [s[0]] + Collapse(s[1..])
  }

  /** Dropping a prefix made only of whitespace does not change NonSpace. */
  lemma {:induction false} NonSpaceOfSpaces(s: string, k: nat)
    requires k <= |s|
    requires forall i :: 0 <= i < k ==> IsSpace(s[i])
    ensures NonSpace(s) == NonSpace(s[k..])
  {
    if k > 0 {
      NonSpaceOfSpaces(s[1..], k - 1);
      assert s[1..][k - 1..] == s[k..];
    }
  }

  /** Header cleanup: collapse whitespace runs, then strip the ends. */
  function CleanHeader(s: string): (r: string)
    ensures NoEdgeSpace(r)
    ensures NoSpaceRun(r) && OnlyPlainSpace(r)
  {
    var c := Collapse(s);
    var t := DropSpaces(c);
    SliceShape(c, |c| - |t|, |c|);
    SliceShape(t, 0, |DropTrailingSpaces(t)|);
    StripParts(c);
    Strip(c)
  }

  /** What header cleanup guarantees about its result. */
  lemma CleanHeaderShape(s: string)
    ensures NoEdgeSpace(CleanHeader(s))
    ensures NoSpaceRun(CleanHeader(s)) && OnlyPlainSpace(CleanHeader(s))
    ensures NonSpace(CleanHeader(s)) == NonSpace(s)
  {
    CleanHeaderText(s);
  }

  /** Header cleanup keeps every non-whitespace character, in order. */
  lemma CleanHeaderText(s: string)
    ensures NonSpace(CleanHeader(s)) == NonSpace(s)
  {
    var c := Collapse(s);
    var t := DropSpaces(c);
    var r := DropTrailingSpaces(t);
    StripParts(c);
    assert CleanHeader(s) == r;
    NonSpaceOfSpaces(c, |c| - |t|);
    NonSpaceOfTrailingSpaces(t, |r|);
  }

  /** A slice of a canonical string is canonical. */
  lemma SliceShape(s: string, a: nat, b: nat)
    requires a <= b <= |s|
    requires NoSpaceRun(s) && OnlyPlainSpace(s)
    ensures NoSpaceRun(s[a..b]) && OnlyPlainSpace(s[a..b])
  {
    var r := s[a..b];
    forall i | 0 <= i < |r| - 1
      ensures !(IsSpace(r[i]) && IsSpace(r[i + 1]))
    {
      assert r[i] == s[a + i] && r[i + 1] == s[a + i + 1];
    }
  }

  /** Dropping a suffix made only of whitespace does not change NonSpace. */
  lemma {:induction false} NonSpaceOfTrailingSpaces(s: string, k: nat)
    requires k <= |s|
    requires forall i :: k <= i < |s| ==> IsSpace(s[i])
    ensures NonSpace(s) == NonSpace(s[..k])
  {
    if k == |s| {
      assert s[..k] == s;
    } else {
      if k == 0 {
        NonSpaceAllSpaces(s);
        assert s[..k] == [];
      } else {
        NonSpaceOfTrailingSpaces(s[1..], k - 1);
        var p := s[..k];
        assert p[1..] == s[1..][..k - 1];
        assert p[0] == s[0];
        assert NonSpace(p) == (if IsSpace(s[0]) then [] else [s[0]]) + NonSpace(s[1..][..k - 1]);
        assert NonSpace(s) == (if IsSpace(s[0]) then [] else [s[0]]) + NonSpace(s[1..]);
      }
    }
  }

  lemma {:induction false} NonSpaceAllSpaces(s: string)
    requires forall i :: 0 <= i < |s| ==> IsSpace(s[i])
    ensures NonSpace(s) == []
  {
    if s != [] {
      NonSpaceAllSpaces(s[1..]);
    }
  }

  /** A string already in canonical form is left alone by Collapse. */
  lemma {:induction false} CollapseFixed(s: string)
    requires NoSpaceRun(s) && OnlyPlainSpace(s)
    ensures Collapse(s) == s
  {
    if s != [] {
      assert NoSpaceRun(s[1..]) && OnlyPlainSpace(s[1..]);
      CollapseFixed(s[1..]);
      if IsSpace(s[0]) {
        assert |s| > 1 ==> !IsSpace(s[1]);
        assert DropSpaces(s) == s[1..];
      }
    }
  }

  /** Header cleanup is idempotent. */
  lemma CleanHeaderIdempotent(s: string)
    ensures CleanHeader(CleanHeader(s)) == CleanHeader(s)
  {
    var h := CleanHeader(s);
    CleanHeaderShape(s);
    CollapseFixed(h);
    assert h == [] || !IsSpace(h[0]);
    assert DropSpaces(h) == h;
    assert DropTrailingSpaces(h) == h;
  }

  /** Python's `str.upper()` on ASCII letters. */
  function Upper(s: string): (r: string)
    ensures |r| == |s|
    ensures forall i :: 0 <= i < |s| ==> !('a' <= r[i] <= 'z')
    ensures forall i :: 0 <= i < |s| && !('a' <= s[i] <= 'z') ==> r[i] == s[i]
    ensures forall i :: 0 <= i < |s| && 'a' <= s[i] <= 'z' ==> r[i] as int == s[i] as int - 32
  {
    seq(|s|, i requires 0 <= i < |s| => if 'a' <= s[i] <= 'z' then (s[i] as int - 32) as char else s[i])
  }

  /** Upper-casing text that has no lower-case letter changes nothing. */
  lemma UpperFixed(s: string)
    requires forall i :: 0 <= i < |s| ==> !('a' <= s[i] <= 'z')
    ensures Upper(s) == s
  {
    var r := Upper(s);
    forall i | 0 <= i < |s|
      ensures r[i] == s[i]
    {
    }
  }

  /** Stripping text that has no whitespace at either end changes nothing. */
  lemma StripFixed(s: string)
    requires NoEdgeSpace(s)
    ensures Strip(s) == s
  {
    assert DropSpaces(s) == s;
    assert DropTrailingSpaces(s) == s;
  }

  /** A leading whitespace character makes no difference to `strip`. */
  lemma StripLeadingSpace(c: char, s: string)
    requires IsSpace(c)
    ensures Strip([c] + s) == Strip(s)
  {
    DropSpacesCons(c, s);
    StripParts([c] + s);
    StripParts(s);
  }

  lemma DropSpacesCons(c: char, s: string)
    requires IsSpace(c)
    ensures DropSpaces([c] + s) == DropSpaces(s)
  {
    assert ([c] + s)[1..] == s;
  }

  /** `strip` is the leading trim followed by the trailing trim. */
  lemma StripParts(s: string)
    ensures Strip(s) == DropTrailingSpaces(DropSpaces(s))
  {
  }

  /** Python's `str.lower()` on ASCII letters. */
  function Lower(s: string): (r: string)
    ensures |r| == |s|
    ensures forall i :: 0 <= i < |s| ==> !('A' <= r[i] <= 'Z')
    ensures forall i :: 0 <= i < |s| && !('A' <= s[i] <= 'Z') ==> r[i] == s[i]
    ensures forall i :: 0 <= i < |s| && 'A' <= s[i] <= 'Z' ==> r[i] as int == s[i] as int + 32
  {
    seq(|s|, i requires 0 <= i < |s| => if 'A' <= s[i] <= 'Z' then (s[i] as int + 32) as char else s[i])
  }

  /** `str.replace(a, b)` for single characters. */
  function ReplaceChar(s: string, a: char, b: char): (r: string)
    ensures |r| == |s|
    ensures forall i :: 0 <= i < |s| ==> r[i] == (if s[i] == a then b else s[i])
  {
    seq(|s|, i requires 0 <= i < |s| => if s[i] == a then b else s[i])
  }

  /** Python's `pat in s`. */
  predicate Contains(s: string, pat: string)
    decreases |s|
  {
    |pat| <= |s| && (s[..|pat|] == pat || Contains(s[1..], pat))
  }

  /** Where `pat` occurs in `s` when `Contains(s, pat)` holds. */
  lemma {:induction false} ContainsWitness(s: string, pat: string) returns (i: nat)
    requires Contains(s, pat)
    ensures i + |pat| <= |s| && s[i..i + |pat|] == pat
    decreases |s|
  {
    if s[..|pat|] == pat {
      i := 0;
    } else {
      var j := ContainsWitness(s[1..], pat);
      i := j + 1;
      assert s[i..i + |pat|] == s[1..][j..j + |pat|];
    }
  }

  /**
   * `str.replace(pat, '')`: occurrences are removed scanning left to right,
   * without looking again at the text that the removal brings together.
   */
  function RemoveAll(s: string, pat: string): (r: string)
    requires pat != []
    ensures |r| <= |s|
    ensures forall c :: c in r ==> c in s
    decreases |s|
  {
    if |s| < |pat| then s
    else if s[..|pat|] == pat then RemoveAll(s[|pat|..], pat)
    else
      assert s == [s[0]] + s[1..];
      [s[0]] + RemoveAll(s[1..], pat)
  }

  /** Text in which `pat` does not occur comes back from RemoveAll unchanged. */
  lemma {:induction false} RemoveAllAbsent(s: string, pat: string)
    requires pat != [] && !Contains(s, pat)
    ensures RemoveAll(s, pat) == s
    decreases |s|
  {
    if |s| >= |pat| {
      RemoveAllAbsent(s[1..], pat);
      assert s == [s[0]] + s[1..];
    }
  }

  /** `pat` does not occur at position `i` of `s`. */
  predicate NoMatchAt(s: string, pat: string, i: nat) {
    i + |pat| > |s| || s[i..i + |pat|] != pat
  }

  /**
   * The first occurrence of `pat` is removed, and the scan goes on after
   * it: with RemoveAllAbsent this is Python's left-to-right,
   * non-overlapping `str.replace(pat, '')`.
   */
  lemma {:induction false} RemoveAllFirst(s: string, pat: string, i: nat)
    requires pat != [] && i + |pat| <= |s| && s[i..i + |pat|] == pat
    requires forall j :: 0 <= j < i ==> NoMatchAt(s, pat, j)
    ensures RemoveAll(s, pat) == s[..i] + RemoveAll(s[i + |pat|..], pat)
    decreases i
  {
    if i == 0 {
      assert s[..|pat|] == pat;
      assert s[..0] + RemoveAll(s[|pat|..], pat) == RemoveAll(s[|pat|..], pat);
    } else {
      assert NoMatchAt(s, pat, 0);
      assert s[..|pat|] != pat;
      var t := s[1..];
      assert t[i - 1..i - 1 + |pat|] == s[i..i + |pat|];
      forall j | 0 <= j < i - 1
        ensures NoMatchAt(t, pat, j)
      {
        assert NoMatchAt(s, pat, j + 1);
        assert t[j..j + |pat|] == s[j + 1..j + 1 + |pat|];
      }
      RemoveAllFirst(t, pat, i - 1);
      assert t[i - 1 + |pat|..] == s[i + |pat|..];
      assert RemoveAll(s, pat) == [s[0]] + RemoveAll(t, pat);
      ConcatAssoc([s[0]], t[..i - 1], RemoveAll(s[i + |pat|..], pat));
      assert [s[0]] + t[..i - 1] == s[..i];
    }
  }

  /** A prefix that cannot start an occurrence of `pat` passes through RemoveAll untouched. */
  lemma {:induction false} RemoveAllPrefix(a: string, b: string, pat: string)
    requires pat != [] && pat[0] !in a
    ensures RemoveAll(a + b, pat) == a + RemoveAll(b, pat)
  {
    if a != [] {
      var s := a + b;
      assert s[1..] == a[1..] + b;
      RemoveAllPrefix(a[1..], b, pat);
      if |s| >= |pat| {
        assert s[..|pat|][0] == a[0];
        assert s[..|pat|] != pat;
        assert RemoveAll(s, pat) == [s[0]] + RemoveAll(s[1..], pat);
        ConcatAssoc([a[0]], a[1..], RemoveAll(b, pat));
        assert [a[0]] + a[1..] == a;
      } else {
        assert RemoveAll(b, pat) == b;
      }
    } else {
      assert a + b == b;
    }
  }

  /** An ASCII letter. */
  predicate IsLetter(c: char) {
    'a' <= c <= 'z' || 'A' <= c <= 'Z'
  }

  /** Lower-casing text that has no upper-case letter changes nothing. */
  lemma LowerFixed(s: string)
    requires forall i :: 0 <= i < |s| ==> !('A' <= s[i] <= 'Z')
    ensures Lower(s) == s
  {
    var r := Lower(s);
    forall i | 0 <= i < |s|
      ensures r[i] == s[i]
    {
    }
  }

  /** Upper-casing ignores the case the text was in. */
  lemma UpperOfLower(s: string)
    ensures Upper(Lower(s)) == Upper(s)
  {
    var l := Lower(s);
    var a := Upper(l);
    var b := Upper(s);
    forall i | 0 <= i < |s|
      ensures a[i] == b[i]
    {
      if 'A' <= s[i] <= 'Z' {
        assert l[i] as int == s[i] as int + 32;
      } else if 'a' <= s[i] <= 'z' {
        assert l[i] == s[i];
      } else {
        assert l[i] == s[i];
      }
    }
  }

  /** `strip` removes only whitespace, and only from the two ends: its result is a slice of the input. */
  lemma StripSlice(s: string) returns (a: nat)
    ensures a + |Strip(s)| <= |s| && Strip(s) == s[a..a + |Strip(s)|]
    ensures forall i :: 0 <= i < a ==> IsSpace(s[i])
    ensures forall i :: a + |Strip(s)| <= i < |s| ==> IsSpace(s[i])
  {
    var t := DropSpaces(s);
    var r := DropTrailingSpaces(t);
    StripParts(s);
    a := |s| - |t|;
    NestedSlice(s, t, r, a);
  }

  /** A prefix of a suffix is a slice, and what follows it in the suffix follows it in the whole. */
  lemma NestedSlice(s: string, t: string, r: string, a: nat)
    requires a <= |s| && t == s[a..] && |r| <= |t| && r == t[..|r|]
    requires forall i :: 0 <= i < a ==> IsSpace(s[i])
    requires forall i :: |r| <= i < |t| ==> IsSpace(t[i])
    ensures a + |r| <= |s| && r == s[a..a + |r|]
    ensures forall i :: 0 <= i < a ==> IsSpace(s[i])
    ensures forall i :: a + |r| <= i < |s| ==> IsSpace(s[i])
  {
    SliceOfSuffix(s, a, |r|);
    forall i | a + |r| <= i < |s|
      ensures IsSpace(s[i])
    {
      assert s[i] == t[i - a];
    }
  }

  /** `strip` brings in no character: text without lower-case letters stays without them. */
  lemma StripNoLower(s: string)
    requires forall i :: 0 <= i < |s| ==> !('a' <= s[i] <= 'z')
    ensures forall i :: 0 <= i < |Strip(s)| ==> !('a' <= Strip(s)[i] <= 'z')
  {
    var a := StripSlice(s);
    var r := Strip(s);
    forall i | 0 <= i < |r|
      ensures !('a' <= r[i] <= 'z')
    {
      assert r[i] == s[a + i];
    }
  }

  lemma SliceOfSuffix(s: string, a: nat, k: nat)
    requires a + k <= |s|
    ensures s[a..][..k] == s[a..a + k]
  {
  }

  /** A trailing whitespace character makes no difference to `strip`. */
  lemma StripTrailingSpace(s: string, c: char)
    requires IsSpace(c)
    ensures Strip(s + [c]) == Strip(s)
  {
    StripParts(s + [c]);
    StripParts(s);
    var t := DropSpaces(s);
    if t == [] {
      assert forall i :: 0 <= i < |s + [c]| ==> IsSpace((s + [c])[i]);
      DropSpacesRun(s + [c], []);
      assert s + [c] + [] == s + [c];
    } else {
      DropSpacesAppend(s, [c]);
      DropTrailingSnoc(t, c);
    }
  }

  lemma DropTrailingSnoc(t: string, c: char)
    requires IsSpace(c)
    ensures DropTrailingSpaces(t + [c]) == DropTrailingSpaces(t)
  {
    assert (t + [c])[..|t|] == t;
  }

  /** Leading whitespace is dropped up to the first non-whitespace character, wherever the text continues. */
  lemma {:induction false} DropSpacesAppend(a: string, x: string)
    requires DropSpaces(a) != []
    ensures DropSpaces(a + x) == DropSpaces(a) + x
    decreases |a|
  {
    if IsSpace(a[0]) {
      var t := a[1..];
      assert (a + x)[0] == a[0];
      assert (a + x)[1..] == t + x;
      assert DropSpaces(a + x) == DropSpaces(t + x);
      assert DropSpaces(a) == DropSpaces(t);
      DropSpacesAppend(t, x);
    } else {
      assert (a + x)[0] == a[0];
    }
  }

  /** A run of whitespace in front of a non-whitespace character (or of nothing) is dropped entirely. */
  lemma {:induction false} DropSpacesRun(w: string, b: string)
    requires forall i :: 0 <= i < |w| ==> IsSpace(w[i])
    requires b == [] || !IsSpace(b[0])
    ensures DropSpaces(w + b) == b
    decreases |w|
  {
    if w == [] {
      assert w + b == b;
    } else {
      assert (w + b)[1..] == w[1..] + b;
      DropSpacesRun(w[1..], b);
    }
  }

  /** Trailing whitespace is dropped only from the part after the last non-whitespace character. */
  lemma {:induction false} DropTrailingPrepend(p: string, y: string)
    requires y != [] && !IsSpace(y[0])
    ensures DropTrailingSpaces(p + y) == p + DropTrailingSpaces(y)
    decreases |y|
  {
    if IsSpace(y[|y| - 1]) {
      var y' := y[..|y| - 1];
      assert (p + y)[..|p + y| - 1] == p + y';
      DropTrailingPrepend(p, y');
    }
  }

  /** Collapsing keeps whether the text ends in whitespace. */
  lemma {:induction false} CollapseLast(s: string)
    ensures Collapse(s) != [] ==> (IsSpace(Collapse(s)[|Collapse(s)| - 1]) <==> IsSpace(s[|s| - 1]))
    decreases |s|
  {
    if s != [] {
      if IsSpace(s[0]) {
        var rest := DropSpaces(s);
        if rest != [] {
          CollapseLast(rest);
          assert rest[|rest| - 1] == s[|s| - 1];
        }
      } else if |s| > 1 {
        CollapseLast(s[1..]);
      }
    }
  }

  /** Concatenation is associative; stated once so that proofs need not rediscover it element by element. */
  lemma ConcatAssoc(x: string, y: string, z: string)
    ensures x + y + z == x + (y + z)
  {
  }

  /** Text that ends in non-whitespace collapses independently of what follows it. */
  lemma {:induction false} CollapseAppend(a: string, x: string)
    requires a == [] || !IsSpace(a[|a| - 1])
    ensures Collapse(a + x) == Collapse(a) + Collapse(x)
    decreases |a|
  {
    if a == [] {
      assert a + x == x;
    } else if IsSpace(a[0]) {
      var rest := DropSpaces(a);
      assert rest != [];
      DropSpacesAppend(a, x);
      assert (a + x)[0] == a[0];
      CollapseAppend(rest, x);
      ConcatAssoc([' '], Collapse(rest), Collapse(x));
    } else {
      assert (a + x)[1..] == a[1..] + x;
      assert (a + x)[0] == a[0];
      CollapseAppend(a[1..], x);
      ConcatAssoc([a[0]], Collapse(a[1..]), Collapse(x));
    }
  }

  /** A whitespace run in front of a non-whitespace character becomes one space. */
  lemma CollapseRun(w: string, b: string)
    requires w != [] && forall i :: 0 <= i < |w| ==> IsSpace(w[i])
    requires b == [] || !IsSpace(b[0])
    ensures Collapse(w + b) == [' '] + Collapse(b)
  {
    DropSpacesRun(w, b);
    assert (w + b)[0] == w[0];
  }

  /** Between two words, every whitespace run becomes exactly one plain space. */
  lemma CollapseJoin(a: string, w: string, b: string)
    requires a == [] || !IsSpace(a[|a| - 1])
    requires w != [] && forall i :: 0 <= i < |w| ==> IsSpace(w[i])
    requires b == [] || !IsSpace(b[0])
    ensures Collapse(a + w + b) == Collapse(a) + " " + Collapse(b)
  {
    ConcatAssoc(a, w, b);
    CollapseAppend(a, w + b);
    CollapseRun(w, b);
    ConcatAssoc(Collapse(a), " ", Collapse(b));
  }

  /** A header made of two parts joined by whitespace cleans to the two cleaned parts joined by one space. */
  lemma CleanHeaderJoin(a: string, w: string, b: string)
    requires a != [] && !IsSpace(a[|a| - 1])
    requires w != [] && forall i :: 0 <= i < |w| ==> IsSpace(w[i])
    requires b != [] && !IsSpace(b[0])
    ensures CleanHeader(a + w + b) == CleanHeader(a) + " " + CleanHeader(b)
  {
    var x := Collapse(a);
    var y := Collapse(b);
    CollapseJoin(a, w, b);
    CollapseLast(a);
    var dx := DropSpaces(x);
    assert dx != [];
    assert dx[|dx| - 1] == x[|x| - 1];
    StripParts(x + " " + y);
    StripParts(x);
    StripParts(y);
    ConcatAssoc(x, " ", y);
    DropSpacesAppend(x, " " + y);
    ConcatAssoc(dx, " ", y);
    DropTrailingPrepend(dx + " ", y);
    assert DropSpaces(y) == y;
    assert DropTrailingSpaces(dx) == dx;
  }

  /** Python's `pat in s` holds wherever `pat` occurs. */
  lemma {:induction false} ContainsAt(s: string, pat: string, i: nat)
    requires i + |pat| <= |s| && s[i..i + |pat|] == pat
    ensures Contains(s, pat)
    decreases i
  {
    if i > 0 {
      assert s[1..][i - 1..i - 1 + |pat|] == s[i..i + |pat|];
      ContainsAt(s[1..], pat, i - 1);
    }
  }

  /** A pattern whose first character does not occur in `s` is not in `s`. */
  lemma {:induction false} AbsentHead(s: string, pat: string)
    requires pat != [] && pat[0] !in s
    ensures !Contains(s, pat)
    decreases |s|
  {
    if |pat| <= |s| {
      assert s[..|pat|][0] == s[0];
      AbsentHead(s[1..], pat);
    }
  }

  /** `k` copies of the characters of a pattern. */
  function Copies(k: nat, m: multiset<char>): multiset<char> {
    if k == 0 then multiset{} else m + Copies(k - 1, m)
  }

  /** What `str.replace(pat, '')` removes is whole copies of `pat`, nothing else. */
  lemma {:induction false} RemovedCopies(s: string, pat: string) returns (k: nat)
    requires pat != []
    ensures multiset(s) == multiset(RemoveAll(s, pat)) + Copies(k, multiset(pat))
    decreases |s|, 1
  {
    if |s| < |pat| {
      k := 0;
    } else if s[..|pat|] == pat {
      k := RemovedAtMatch(s, pat);
    } else {
      k := RemovedAtMiss(s, pat);
    }
  }

  lemma {:induction false} RemovedAtMatch(s: string, pat: string) returns (k: nat)
    requires pat != [] && |pat| <= |s| && s[..|pat|] == pat
    ensures multiset(s) == multiset(RemoveAll(s, pat)) + Copies(k, multiset(pat))
    decreases |s|, 0
  {
    var rest := s[|pat|..];
    var k' := RemovedCopies(rest, pat);
    k := k' + 1;
    var m := multiset(pat);
    assert RemoveAll(s, pat) == RemoveAll(rest, pat);
    assert Copies(k, m) == m + Copies(k', m);
    SplitChars(s, |pat|);
    MultisetSwap(m, multiset(RemoveAll(rest, pat)), Copies(k', m));
  }

  lemma {:induction false} RemovedAtMiss(s: string, pat: string) returns (k: nat)
    requires pat != [] && |pat| <= |s| && s[..|pat|] != pat
    ensures multiset(s) == multiset(RemoveAll(s, pat)) + Copies(k, multiset(pat))
    decreases |s|, 0
  {
    k := RemovedCopies(s[1..], pat);
    assert s == [s[0]] + s[1..];
    MultisetSwap(multiset{s[0]}, multiset(RemoveAll(s[1..], pat)), Copies(k, multiset(pat)));
  }

  /** The characters of a string are those of any prefix and the matching suffix. */
  lemma SplitChars(s: string, n: nat)
    requires n <= |s|
    ensures multiset(s) == multiset(s[..n]) + multiset(s[n..])
  {
    assert s == s[..n] + s[n..];
  }

  lemma MultisetSwap(p: multiset<char>, r: multiset<char>, c: multiset<char>)
    ensures p + (r + c) == r + (p + c) == (p + r) + c
  {
  }
}
