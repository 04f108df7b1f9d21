/** The three Python string built-ins the splitter relies on: `str.split(sep)`,
    `sep.join(pieces)` and `str.strip()`, over strings of Unicode scalar values. */
module PyStr {

  type Str = seq<char>

  datatype Option<T> = None | Some(value: T)

  /** Python's `str.isspace()` on a single character: the characters CPython's
      `strip()` with no argument removes. */
  predicate IsSpace(c: char) {
    var n := c as int;
    (9 <= n <= 13) || (28 <= n <= 32) || n == 0x85 || n == 0xA0 || n == 0x1680
    || (0x2000 <= n <= 0x200A) || n == 0x2028 || n == 0x2029 || n == 0x202F
    || n == 0x205F || n == 0x3000
  }

  predicate AllSpace(s: Str) {
    forall k :: 0 <= k < |s| ==> IsSpace(s[k])
  }

  /** `sep` occurs in `s` starting at index `j`. */
  predicate OccursAt(s: Str, sep: Str, j: int) {
    0 <= j && j + |sep| <= |s| && s[j..j + |sep|] == sep
  }

  ghost predicate SepFree(s: Str, sep: Str) {
    forall j :: !OccursAt(s, sep, j)
  }

  /** An occurrence inside a prefix of `s` is an occurrence in `s`. */
  lemma OccursInPrefix(s: Str, t: Str, sep: Str, j: int)
    requires |t| <= |s| && t == s[..|t|]
    requires OccursAt(t, sep, j)
    ensures OccursAt(s, sep, j)
  {
    assert t[j..j + |sep|] == s[j..j + |sep|];
  }

  lemma PrefixSlice(s: Str, t: Str, i: int, j: int)
    requires |t| <= |s| && t == s[..|t|] && 0 <= i <= j <= |t|
    ensures t[i..j] == s[i..j]
  {
  }

  /** `sep[k..]` matches `s` at `j + k`, compared character by character. */
  predicate MatchAt(s: Str, sep: Str, j: nat, k: nat)
    requires j + |sep| <= |s| && k <= |sep|
    decreases |sep| - k
  {
    k == |sep| || (s[j + k] == sep[k] && MatchAt(s, sep, j, k + 1))
  }

  lemma {:induction false} MatchAtSpec(s: Str, sep: Str, j: nat, k: nat)
    requires j + |sep| <= |s| && k <= |sep|
    ensures MatchAt(s, sep, j, k) <==> s[j + k..j + |sep|] == sep[k..]
    decreases |sep| - k
  {
    if k < |sep| {
      MatchAtSpec(s, sep, j, k + 1);
      var a, b := s[j + k..j + |sep|], sep[k..];
      assert a == [s[j + k]] + s[j + k + 1..j + |sep|];
      assert b == [sep[k]] + sep[k + 1..];
      if a == b {
        assert a[0] == b[0] && a[1..] == b[1..];
      }
    }
  }

  /** The leftmost occurrence of `sep` at or after `from`. */
  function FindFrom(s: Str, sep: Str, from: nat): (r: Option<nat>)
    requires |sep| > 0 && from <= |s|
    ensures r.Some? ==> from <= r.value && r.value + |sep| <= |s|
    decreases |s| - from
  {
    if from + |sep| > |s| then None
    else if MatchAt(s, sep, from, 0) then Some(from)
    else FindFrom(s, sep, from + 1)
  }

  /** FindFrom finds an occurrence, and no occurrence lies between `from`
      and the one it finds, nor after `from` when it finds none. */
  lemma {:induction false} FindFromSpec(s: Str, sep: Str, from: nat)
    requires |sep| > 0 && from <= |s|
    ensures var r := FindFrom(s, sep, from);
      && (r.Some? ==> OccursAt(s, sep, r.value))
      && forall j :: from <= j && (r.None? || j < r.value) ==> !OccursAt(s, sep, j)
    decreases |s| - from
  {
    if from + |sep| <= |s| {
      MatchAtSpec(s, sep, from, 0);
      assert sep[0..] == sep;
      if !MatchAt(s, sep, from, 0) {
        FindFromSpec(s, sep, from + 1);
      }
    }
  }

  /** When `i` is the leftmost occurrence of `sep` in `s`, no occurrence of `sep`
      starts inside `s[..i]`, even one running on into the separator. */
  lemma LeftmostPiece(s: Str, sep: Str, i: nat)
    requires |sep| > 0 && OccursAt(s, sep, i)
    requires forall j :: 0 <= j < i ==> !OccursAt(s, sep, j)
    ensures SepFree(s[..i] + sep[..|sep| - 1], sep)
  {
    var t := s[..i] + sep[..|sep| - 1];
    assert t == s[..i + |sep| - 1];
    forall j | OccursAt(t, sep, j) ensures false {
      OccursInPrefix(s, t, sep, j);
    }
  }

  /** Python's `s.split(sep)` for a non-empty separator: cut at every occurrence,
      scanning left to right without overlap; there is always at least one piece. */
  function Split(s: Str, sep: Str): (pieces: seq<Str>)
    requires |sep| > 0
    ensures |pieces| >= 1
    decreases |s|
  {
    match FindFrom(s, sep, 0)
    case None => [s]
    case Some(i) => [s[..i]] + Split(s[i + |sep|..], sep)
  }

  /** Unfolding one cut of the split at the leftmost separator. */
  lemma SplitAt(s: Str, sep: Str, i: nat)
    requires |sep| > 0 && FindFrom(s, sep, 0) == Some(i)
    ensures i + |sep| <= |s| && Split(s, sep) == [s[..i]] + Split(s[i + |sep|..], sep)
  {
  }

  /** A string holding no separator is its own single piece. */
  lemma SplitSepFree(s: Str, sep: Str)
    requires |sep| > 0 && SepFree(s, sep)
    ensures Split(s, sep) == [s]
  {
    FindFromSpec(s, sep, 0);
    var r := FindFrom(s, sep, 0);
    assert r.None?;
  }

  /** The shape of a split's pieces: the last holds no separator, and no
      occurrence starts inside any other piece, even one running on into the
      separator that follows it. */
  ghost predicate WellCut(pieces: seq<Str>, sep: Str)
    requires |sep| > 0
  {
    && |pieces| >= 1
    && SepFree(pieces[|pieces| - 1], sep)
    && forall k :: 0 <= k < |pieces| - 1 ==> SepFree(pieces[k] + sep[..|sep| - 1], sep)
  }

  lemma WellCutCons(head: Str, tail: seq<Str>, sep: Str)
    requires |sep| > 0 && WellCut(tail, sep) && SepFree(head + sep[..|sep| - 1], sep)
    ensures WellCut([head] + tail, sep)
  {
    var pieces := [head] + tail;
    assert pieces[|pieces| - 1] == tail[|tail| - 1];
    forall k | 1 <= k < |pieces| ensures pieces[k] == tail[k - 1] { }
  }

  lemma WellCutTail(pieces: seq<Str>, sep: Str)
    requires |sep| > 0 && WellCut(pieces, sep) && |pieces| >= 2
    ensures WellCut(pieces[1..], sep) && SepFree(pieces[0] + sep[..|sep| - 1], sep)
  {
    var tail := pieces[1..];
    assert tail[|tail| - 1] == pieces[|pieces| - 1];
    forall k | 0 <= k < |tail| - 1 ensures SepFree(tail[k] + sep[..|sep| - 1], sep) {
      assert tail[k] == pieces[k + 1];
    }
  }

  /** The pieces of a split are well cut: no piece holds the separator, and
      each piece but the last ends where the leftmost separator after it
      begins. */
  lemma {:induction false} SplitPieces(s: Str, sep: Str)
    requires |sep| > 0
    ensures WellCut(Split(s, sep), sep)
    decreases |s|
  {
    match FindFrom(s, sep, 0)
    case None =>
      FindFromSpec(s, sep, 0);
      assert Split(s, sep) == [s];
    case Some(i) =>
      SplitAt(s, sep, i);
      var rest := s[i + |sep|..];
      SplitPieces(rest, sep);
      FindFromSpec(s, sep, 0);
      LeftmostPiece(s, sep, i);
      WellCutCons(s[..i], Split(rest, sep), sep);
  }

  /** Python's `sep.join(pieces)`. */
  function Join(pieces: seq<Str>, sep: Str): Str {
    if |pieces| == 0 then []
    else if |pieces| == 1 then pieces[0]
    else pieces[0] + sep + Join(pieces[1..], sep)
  }

  lemma {:induction false} JoinAppend(a: seq<Str>, b: seq<Str>, sep: Str)
    requires |a| >= 1 && |b| >= 1
    ensures Join(a + b, sep) == Join(a, sep) + sep + Join(b, sep)
  {
    if |a| == 1 {
      assert (a + b)[1..] == b;
    } else {
      assert (a + b)[1..] == a[1..] + b;
      JoinAppend(a[1..], b, sep);
    }
  }

  /** Joining the pieces of a split with the same separator gives back the string. */
  lemma {:induction false} SplitJoin(s: Str, sep: Str)
    requires |sep| > 0
    ensures Join(Split(s, sep), sep) == s
    decreases |s|
  {
    match FindFrom(s, sep, 0)
    case None =>
      assert Split(s, sep) == [s];
    case Some(i) =>
      SplitAt(s, sep, i);
      var rest := s[i + |sep|..];
      var tail := Split(rest, sep);
      SplitJoin(rest, sep);
      JoinAppend([s[..i]], tail, sep);
      assert Join([s[..i]], sep) == s[..i];
      FindFromSpec(s, sep, 0);
      assert s[i..i + |sep|] == sep;
      assert s == s[..i] + s[i..i + |sep|] + rest;
  }

  /** When `s` is `p + sep + rest` and no occurrence starts inside `p`, even
      one running on into that separator, the leftmost separator of `s`
      starts right after `p`. */
  lemma LeftmostAfter(s: Str, sep: Str, p: Str, rest: Str)
    requires |sep| > 0 && s == p + sep + rest
    requires SepFree(p + sep[..|sep| - 1], sep)
    ensures FindFrom(s, sep, 0) == Some(|p|)
  {
    assert OccursAt(s, sep, |p|) by {
      assert s[|p|..|p| + |sep|] == sep;
    }
    var t := p + sep[..|sep| - 1];
    assert t == s[..|t|];
    forall j | 0 <= j < |p| ensures !OccursAt(s, sep, j) {
      if OccursAt(s, sep, j) {
        PrefixSlice(s, t, j, j + |sep|);
        assert OccursAt(t, sep, j);
      }
    }
    FindFromSpec(s, sep, 0);
  }

  /** Splitting is the only way to cut `s` into well-cut pieces that join
      back to `s`. */
  lemma {:induction false} SplitUnique(s: Str, sep: Str, pieces: seq<Str>)
    requires |sep| > 0 && WellCut(pieces, sep) && Join(pieces, sep) == s
    ensures pieces == Split(s, sep)
    decreases |pieces|
  {
    if |pieces| == 1 {
      SplitSepFree(s, sep);
    } else {
      var p := pieces[0];
      var tail := pieces[1..];
      var rest := Join(tail, sep);
      WellCutTail(pieces, sep);
      assert s == p + sep + rest;
      LeftmostAfter(s, sep, p, rest);
      SplitAt(s, sep, |p|);
      assert s[..|p|] == p && s[|p| + |sep|..] == rest;
      SplitUnique(rest, sep, tail);
      assert pieces == [p] + tail;
    }
  }

  /** `s` without its leading whitespace. */
  function StripLeft(s: Str): Str {
    if s != [] && IsSpace(s[0]) then StripLeft(s[1..]) else s
  }

  /** `s` without its trailing whitespace. */
  function StripRight(s: Str): Str {
    if s != [] && IsSpace(s[|s| - 1]) then StripRight(s[..|s| - 1]) else s
  }

  /** StripLeft keeps a suffix, drops only whitespace, and stops at the first
      character that is not whitespace. */
  lemma {:induction false} StripLeftSpec(s: Str)
    ensures var r := StripLeft(s);
      && |r| <= |s| && r == s[|s| - |r|..]
      && AllSpace(s[..|s| - |r|])
      && (r == [] || !IsSpace(r[0]))
    decreases |s|
  {
    if s != [] && IsSpace(s[0]) {
      StripLeftSpec(s[1..]);
      var r := StripLeft(s[1..]);
      assert s[..|s| - |r|] == [s[0]] + s[1..][..|s| - 1 - |r|];
    }
  }

  /** StripRight keeps a prefix, drops only whitespace, and stops at the last
      character that is not whitespace. */
  lemma {:induction false} StripRightSpec(s: Str)
    ensures var r := StripRight(s);
      && |r| <= |s| && r == s[..|r|]
      && AllSpace(s[|r|..])
      && (r == [] || !IsSpace(r[|r| - 1]))
    decreases |s|
  {
    if s != [] && IsSpace(s[|s| - 1]) {
      StripRightSpec(s[..|s| - 1]);
      var r := StripRight(s[..|s| - 1]);
      assert s[|r|..] == s[..|s| - 1][|r|..] + [s[|s| - 1]];
    }
  }

  lemma AllSpaceConcat(a: Str, b: Str)
    requires AllSpace(a) && AllSpace(b)
    ensures AllSpace(a + b)
  {
  }

  lemma StripBoth(s: Str)
    ensures var r := StripRight(StripLeft(s));
      && |r| <= |s|
      && (r == [] <==> AllSpace(s))
      && (r != [] ==> !IsSpace(r[0]) && !IsSpace(r[|r| - 1]))
  {
    var l := StripLeft(s);
    var r := StripRight(l);
    StripLeftSpec(s);
    StripRightSpec(l);
    var lead := s[..|s| - |l|];
    assert s == lead + l;
    if r == [] {
      assert l == l[|r|..];
      AllSpaceConcat(lead, l);
    } else {
      assert r[0] == l[0];
      assert l[0] == s[|lead|];
    }
  }

  /** Python's `s.strip()`: drop leading and trailing whitespace. */
  function Strip(s: Str): (r: Str)
    ensures |r| <= |s|
    ensures r == [] <==> AllSpace(s)
    ensures r != [] ==> !IsSpace(r[0]) && !IsSpace(r[|r| - 1])
  {
    StripBoth(s);
    StripRight(StripLeft(s))
  }

  lemma {:induction false} StripLeftAppend(s: Str, w: Str)
    requires !AllSpace(s)
    ensures StripLeft(s + w) == StripLeft(s) + w
    decreases |s|
  {
    assert (s + w)[0] == s[0];
    if IsSpace(s[0]) {
      assert (s + w)[1..] == s[1..] + w;
      assert !AllSpace(s[1..]) by {
        var k :| 0 <= k < |s| && !IsSpace(s[k]);
        assert s[1..][k - 1] == s[k];
      }
      StripLeftAppend(s[1..], w);
    }
  }

  lemma {:induction false} StripRightSpace(s: Str, w: Str)
    requires AllSpace(w)
    ensures StripRight(s + w) == StripRight(s)
    decreases |w|
  {
    if w != [] {
      var x := s + w;
      assert x[|x| - 1] == w[|w| - 1];
      assert x[..|x| - 1] == s + w[..|w| - 1];
      StripRightSpace(s, w[..|w| - 1]);
    } else {
      assert s + w == s;
    }
  }

  /** Whitespace appended to a string does not change what `strip()` keeps. */
  lemma StripTrailingSpace(s: Str, w: Str)
    requires AllSpace(w)
    ensures Strip(s + w) == Strip(s)
  {
    if AllSpace(s) {
      AllSpaceConcat(s, w);
    } else {
      StripLeftAppend(s, w);
      StripRightSpace(StripLeft(s), w);
    }
  }
}
