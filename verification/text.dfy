/** String primitives shared by the browser, the viewer and the data
    generator: lower-casing, whitespace stripping, substring search and
    splitting on a separator. */
module Text {
  import opened Wrappers

  /* ---------------- Lower-casing ---------------- */

  /** Lower-cases one ASCII letter; every other character is left alone
      (JavaScript `toLowerCase` and Python `lower` restricted to ASCII). */
  function LowerChar(c: char): char {
    if 'A' <= c <= 'Z' then (c as int + 32) as char else c
  }

  function Lower(s: string): (r: string)
    ensures |r| == |s|
    ensures forall i :: 0 <= i < |s| ==> r[i] == LowerChar(s[i])
  {
    if |s| == 0 then [] else [LowerChar(s[0])] + Lower(s[1..])
  }

  lemma LowerIdempotent(s: string)
    ensures Lower(Lower(s)) == Lower(s)
  {
    assert forall i :: 0 <= i < |s| ==> Lower(Lower(s))[i] == Lower(s)[i];
  }

  /* ---------------- Whitespace ---------------- */

  /** The characters Python's `str.isspace` accepts, which are the ones
      `str.strip()` removes. */
  predicate IsSpace(c: char) {
    var n := c as int;
    || 9 <= n <= 13 || 28 <= n <= 32
    || n == 0x85 || n == 0xA0 || n == 0x1680
    || 0x2000 <= n <= 0x200A
    || n == 0x2028 || n == 0x2029 || n == 0x202F || n == 0x205F || n == 0x3000
  }

  predicate AllSpace(s: string) {
    forall i :: 0 <= i < |s| ==> IsSpace(s[i])
  }

  /** Python `str.lstrip()`. */
  function TrimStart(s: string): (r: string)
    ensures |r| <= |s| && r == s[|s| - |r|..]
    ensures |r| == 0 || !IsSpace(r[0])
    ensures AllSpace(s[..|s| - |r|])
  {
    if |s| > 0 && IsSpace(s[0]) then TrimStart(s[1..]) else s
  }

  /** Python `str.rstrip()`. */
  function TrimEnd(s: string): (r: string)
    ensures |r| <= |s| && r == s[..|r|]
    ensures |r| == 0 || !IsSpace(r[|r| - 1])
    ensures AllSpace(s[|r|..])
  {
    if |s| > 0 && IsSpace(s[|s| - 1]) then TrimEnd(s[..|s| - 1]) else s
  }

  /** Python `str.strip()`: the result is a slice of `s` with neither a
      leading nor a trailing space, and it is empty exactly when `s` is
      all whitespace. */
  function Strip(s: string): (r: string)
    ensures |r| <= |s|
    ensures |r| == 0 || (!IsSpace(r[0]) && !IsSpace(r[|r| - 1]))
    ensures |r| == 0 <==> AllSpace(s)
  {
    var t := TrimStart(s);
    var r := TrimEnd(t);
    assert |r| == 0 ==> AllSpace(s) by {
      if |r| == 0 {
        assert t[|r|..] == t;
        assert s == s[..|s| - |t|] + t;
      }
    }
    r
  }

  /** `Strip(s)` is a slice of `s`, starting at offset `k`. */
  lemma StripIsSlice(s: string) returns (k: nat)
    ensures k + |Strip(s)| <= |s| && Strip(s) == s[k..k + |Strip(s)|]
  {
    var t := TrimStart(s);
    k := |s| - |t|;
    assert Strip(s) == t[..|Strip(s)|];
  }

  lemma {:induction false} TrimStartNoLead(s: string)
    requires |s| == 0 || !IsSpace(s[0])
    ensures TrimStart(s) == s
  {
  }

  lemma {:induction false} TrimEndNoTrail(s: string)
    requires |s| == 0 || !IsSpace(s[|s| - 1])
    ensures TrimEnd(s) == s
  {
  }

  /** A string with no surrounding whitespace strips to itself. */
  lemma StripUnpadded(s: string)
    requires |s| == 0 || (!IsSpace(s[0]) && !IsSpace(s[|s| - 1]))
    ensures Strip(s) == s
  {
    TrimStartNoLead(s);
    TrimEndNoTrail(s);
  }

  lemma StripIdempotent(s: string)
    ensures Strip(Strip(s)) == Strip(s)
  {
    StripUnpadded(Strip(s));
  }

  lemma {:induction false} TrimStartLower(s: string)
    ensures TrimStart(Lower(s)) == Lower(TrimStart(s))
    decreases |s|
  {
    if |s| > 0 {
      assert Lower(s)[0] == LowerChar(s[0]);
      assert Lower(s)[1..] == Lower(s[1..]);
      if IsSpace(s[0]) {
        TrimStartLower(s[1..]);
      }
    }
  }

  lemma {:induction false} TrimEndLower(s: string)
    ensures TrimEnd(Lower(s)) == Lower(TrimEnd(s))
    decreases |s|
  {
    if |s| > 0 {
      var n := |s| - 1;
      assert Lower(s)[n] == LowerChar(s[n]);
      assert Lower(s)[..n] == Lower(s[..n]);
      if IsSpace(s[n]) {
        TrimEndLower(s[..n]);
      }
    }
  }

  /** Lower-casing and stripping commute: no letter is a space. */
  lemma StripLower(s: string)
    ensures Strip(Lower(s)) == Lower(Strip(s))
  {
    TrimStartLower(s);
    TrimEndLower(TrimStart(s));
  }

  /* ---------------- Substrings ---------------- */

  /** `pat` occurs in `s` starting at position `i`. */
  predicate Occurs(s: string, pat: string, i: nat) {
    i + |pat| <= |s| && s[i..i + |pat|] == pat
  }

  /** The first occurrence of `pat` in `s` at or after `k`
      (JavaScript `indexOf`, Python `find`). */
  function IndexFrom(s: string, pat: string, k: nat): (r: Option<nat>)
    ensures r.Some? ==> k <= r.value && Occurs(s, pat, r.value)
    ensures r.Some? ==> forall j: nat :: k <= j < r.value ==> !Occurs(s, pat, j)
    ensures r.None? ==> forall j: nat :: k <= j ==> !Occurs(s, pat, j)
    decreases |s| - k
  {
    if k + |pat| > |s| then None
    else if Occurs(s, pat, k) then Some(k)
    else IndexFrom(s, pat, k + 1)
  }

  /** An occurrence that ends inside a prefix is an occurrence in the
      prefix. */
  lemma OccursInPrefix(s: string, pat: string, i: nat, j: nat)
    requires j + |pat| <= i <= |s|
    ensures Occurs(s[..i], pat, j) <==> Occurs(s, pat, j)
  {
    assert s[..i][j..j + |pat|] == s[j..j + |pat|];
  }

  /** JavaScript `includes` and Python `in` on strings. */
  predicate Contains(s: string, pat: string)
    ensures Contains(s, pat) <==> exists i: nat :: Occurs(s, pat, i)
  {
    IndexFrom(s, pat, 0).Some?
  }

  /** A one-character pattern occurs only where that character does. */
  lemma ContainsCharIff(s: string, c: char)
    ensures Contains(s, [c]) <==> c in s
  {
    if c in s {
      var i :| 0 <= i < |s| && s[i] == c;
      assert s[i..i + 1] == [c];
      assert Occurs(s, [c], i);
    }
    if Contains(s, [c]) {
      var i: nat :| Occurs(s, [c], i);
      assert s[i] == s[i..i + 1][0];
    }
  }

  lemma ContainsEmpty(s: string)
    ensures Contains(s, [])
  {
    assert Occurs(s, [], 0);
  }

  /** Whatever a slice of `s` contains, `s` contains. */
  lemma ContainsInSlice(s: string, i: nat, j: nat, pat: string)
    requires i <= j <= |s|
    requires Contains(s[i..j], pat)
    ensures Contains(s, pat)
  {
    var k: nat :| Occurs(s[i..j], pat, k);
    assert k + |pat| <= j - i;
    forall m | 0 <= m < |pat|
      ensures s[i + k..i + k + |pat|][m] == pat[m]
    {
      assert s[i..j][k..k + |pat|][m] == pat[m];
    }
    assert s[i + k..i + k + |pat|] == pat;
    assert Occurs(s, pat, i + k);
  }

  /** An occurrence in the stripped string is one in the string itself. */
  lemma ContainsInStrip(s: string, pat: string)
    ensures Contains(Strip(s), pat) ==> Contains(s, pat)
  {
    if Contains(Strip(s), pat) {
      var k := StripIsSlice(s);
      ContainsInSlice(s, k, k + |Strip(s)|, pat);
    }
  }

  /** Substring containment is transitive. */
  lemma ContainsTransitive(a: string, b: string, c: string)
    requires Contains(a, b) && Contains(b, c)
    ensures Contains(a, c)
  {
    var i: nat :| Occurs(a, b, i);
    ContainsInSlice(a, i, i + |b|, c);
  }

  /** Lower-casing a slice is slicing the lower-cased string. */
  lemma LowerSlice(s: string, i: nat, j: nat)
    requires i <= j <= |s|
    ensures Lower(s)[i..j] == Lower(s[i..j])
  {
    assert forall k :: 0 <= k < j - i ==> Lower(s)[i..j][k] == Lower(s[i..j])[k];
  }

  /** Lower-casing preserves an occurrence. */
  lemma ContainsLower(s: string, pat: string)
    requires Contains(s, pat)
    ensures Contains(Lower(s), Lower(pat))
  {
    var i: nat :| Occurs(s, pat, i);
    LowerSlice(s, i, i + |pat|);
    assert Occurs(Lower(s), Lower(pat), i);
  }

  /* ---------------- Splitting ---------------- */

  /** Python `sep.join(parts)`. */
  function Join(parts: seq<string>, sep: string): string {
    if |parts| == 0 then []
    else if |parts| == 1 then parts[0]
    else parts[0] + sep + Join(parts[1..], sep)
  }

  /** Python `s.split(sep)` for a non-empty separator: the pieces between
      successive non-overlapping occurrences, scanning from the left. No
      piece contains the separator and joining the pieces back with it
      gives `s` again. */
  function Split(s: string, sep: string): (r: seq<string>)
    requires |sep| > 0
    ensures |r| >= 1
    ensures forall i :: 0 <= i < |r| ==> !Contains(r[i], sep)
    ensures Join(r, sep) == s
    decreases |s|
  {
    match IndexFrom(s, sep, 0)
    case None => [s]
    case Some(i) =>
      var head := s[..i];
      var rest := Split(s[i + |sep|..], sep);
      forall j: nat
        ensures !Occurs(head, sep, j)
      {
        if j + |sep| <= i {
          OccursInPrefix(s, sep, i, j);
        }
      }
      assert s == head + sep + s[i + |sep|..] by {
        assert s[i..i + |sep|] == sep;
        assert s == s[..i] + s[i..i + |sep|] + s[i + |sep|..];
      }
      [head] + rest
  }

  /** A single-character separator cannot straddle a piece boundary, so
      splitting the join of separator-free pieces gives the pieces back. */
  lemma {:induction false} SplitJoin(parts: seq<string>, sep: string)
    requires |sep| == 1 && |parts| >= 1
    requires forall i :: 0 <= i < |parts| ==> !Contains(parts[i], sep)
    ensures Split(Join(parts, sep), sep) == parts
    decreases |parts|
  {
    var s := Join(parts, sep);
    if |parts| == 1 {
      assert IndexFrom(s, sep, 0).None?;
    } else {
      var p := parts[0];
      var tail := Join(parts[1..], sep);
      assert s == p + sep + tail;
      assert Occurs(s, sep, |p|) by {
        assert s[|p|..|p| + 1] == sep;
      }
      forall j: nat | j < |p|
        ensures !Occurs(s, sep, j)
      {
        assert !Occurs(p, sep, j);
        assert s[j..j + 1] == p[j..j + 1];
      }
      assert IndexFrom(s, sep, 0) == Some(|p|);
      assert s[..|p|] == p;
      assert s[|p| + 1..] == tail;
      SplitJoin(parts[1..], sep);
    }
  }
}
