/** Character-level helpers shared by the console (input stripping, the delete
    confirmation) and the store (case-insensitive search, ordering by title). */
module Text {

  /** The characters Python's str.strip() removes, restricted to ASCII:
      space, \t \n \v \f \r and the four separators 0x1c..0x1f. */
  predicate IsSpace(c: char) {
    c == ' ' || 9 <= c as int <= 13 || 28 <= c as int <= 31
  }

  /** Drops the leading whitespace of s. */
  function StripLeft(s: string): (r: string)
    ensures |r| <= |s|
  {
    if s != [] && IsSpace(s[0]) then StripLeft(s[1..]) else s
  }

  /** StripLeft keeps a suffix of s that does not start with whitespace, and
      everything it drops is whitespace. */
  lemma {:induction false} StripLeftCorta(s: string)
    ensures StripLeft(s) == s[|s| - |StripLeft(s)|..]
    ensures StripLeft(s) == [] || !IsSpace(StripLeft(s)[0])
    ensures forall k :: 0 <= k < |s| - |StripLeft(s)| ==> IsSpace(s[k])
    decreases |s|
  {
    if s != [] && IsSpace(s[0]) {
      StripLeftCorta(s[1..]);
      assert s[1..][|s[1..]| - |StripLeft(s)|..] == s[|s| - |StripLeft(s)|..];
      forall k | 0 <= k < |s| - |StripLeft(s)| ensures IsSpace(s[k]) {
        if k > 0 {
          assert s[k] == s[1..][k - 1];
        }
      }
    }
  }

  /** Drops the trailing whitespace of s. */
  function StripRight(s: string): (r: string)
    ensures |r| <= |s|
  {
    if s != [] && IsSpace(s[|s| - 1]) then StripRight(s[..|s| - 1]) else s
  }

  /** StripRight keeps a prefix of s that does not end with whitespace, and
      everything it drops is whitespace. */
  lemma {:induction false} StripRightCorta(s: string)
    ensures StripRight(s) == s[..|StripRight(s)|]
    ensures StripRight(s) == [] || !IsSpace(StripRight(s)[|StripRight(s)| - 1])
    ensures forall k :: |StripRight(s)| <= k < |s| ==> IsSpace(s[k])
    decreases |s|
  {
    if s != [] && IsSpace(s[|s| - 1]) {
      var t := s[..|s| - 1];
      StripRightCorta(t);
      assert t[..|StripRight(s)|] == s[..|StripRight(s)|];
      forall k | |StripRight(s)| <= k < |s| ensures IsSpace(s[k]) {
        if k < |s| - 1 {
          assert s[k] == t[k];
        }
      }
    }
  }

  /** r is s[i..], cut to |r| characters, and everything cut away is whitespace. */
  ghost predicate StrippedAt(s: string, r: string, i: int) {
    && 0 <= i <= |s| - |r|
    && r == s[i..i + |r|]
    && (forall k :: 0 <= k < i ==> IsSpace(s[k]))
    && (forall k :: i + |r| <= k < |s| ==> IsSpace(s[k]))
  }

  /** Python's s.strip(): s without its leading and trailing whitespace. */
  function Strip(s: string): (r: string)
    ensures |r| <= |s|
  {
    StripRight(StripLeft(s))
  }

  /** Strip cuts only whitespace, from both ends, and keeps the middle as it is. */
  lemma StripRecorta(s: string)
    ensures exists i :: StrippedAt(s, Strip(s), i)
  {
    var l := StripLeft(s);
    StripLeftCorta(s);
    StripRightCorta(l);
    var i := |s| - |l|;
    var r := Strip(s);
    assert r == s[i..i + |r|];
    forall k | i + |r| <= k < |s| ensures IsSpace(s[k]) {
      assert s[k] == l[k - i];
    }
    assert StrippedAt(s, r, i);
  }

  /** The stripped input neither starts nor ends with whitespace. */
  lemma StripExtremos(s: string)
    ensures Strip(s) == [] || (!IsSpace(Strip(s)[0]) && !IsSpace(Strip(s)[|Strip(s)| - 1]))
  {
    var l := StripLeft(s);
    StripLeftCorta(s);
    StripRightCorta(l);
    var r := Strip(s);
    if r != [] {
      assert r[0] == l[0];
    }
  }

  /** An input is empty after stripping exactly when it consists of whitespace only. */
  lemma StripEmptyIffBlank(s: string)
    ensures Strip(s) == [] <==> forall k :: 0 <= k < |s| ==> IsSpace(s[k])
  {
    var r := Strip(s);
    StripRecorta(s);
    var i :| StrippedAt(s, r, i);
    if r != [] {
      StripExtremos(s);
      assert r[0] == s[i];
    }
  }

  /** Stripping twice is the same as stripping once. */
  lemma StripIdempotent(s: string)
    ensures Strip(Strip(s)) == Strip(s)
  {
    var r := Strip(s);
    StripExtremos(s);
    assert StripLeft(r) == r;
    assert StripRight(r) == r;
  }

  /** ASCII lower-casing of one character; every other character is kept. */
  function LowerChar(c: char): (r: char)
    ensures 'A' <= c <= 'Z' ==> 'a' <= r <= 'z'
    ensures !('A' <= c <= 'Z') ==> r == c
  {
    if 'A' <= c <= 'Z' then (c as int + 32) as char else c
  }

  /** str.lower() / SQL LOWER(), character by character. */
  function Lower(s: string): (r: string)
    ensures |r| == |s|
    ensures forall i :: 0 <= i < |s| ==> r[i] == LowerChar(s[i])
    ensures forall i :: 0 <= i < |r| ==> !('A' <= r[i] <= 'Z')
    ensures forall i :: 0 <= i < |s| && !('A' <= s[i] <= 'Z') ==> r[i] == s[i]
  {
    seq(|s|, i requires 0 <= i < |s| => LowerChar(s[i]))
  }

  lemma LowerAppend(a: string, b: string)
    ensures Lower(a + b) == Lower(a) + Lower(b)
  {
    assert forall i :: 0 <= i < |a + b| ==> Lower(a + b)[i] == (Lower(a) + Lower(b))[i];
  }

  // ---------------------------------------------------------------------------
  // SQL LIKE

  /** `s LIKE p`: in p, '%' matches any run of characters (also none), '_' exactly
      one character, and every other character itself. */
  predicate Like(s: string, p: string)
    decreases |p|, |s|
  {
    if p == [] then s == []
    else if p[0] == '%' then Like(s, p[1..]) || (s != [] && Like(s[1..], p))
    else s != [] && (p[0] == '_' || p[0] == s[0]) && Like(s[1..], p[1..])
  }

  /** A pattern holding no wildcard: every character stands for itself. */
  predicate Literal(w: string) {
    forall i :: 0 <= i < |w| ==> w[i] != '%' && w[i] != '_'
  }

  /** The reference meaning of "w occurs in s". */
  ghost predicate IsSubstring(w: string, s: string) {
    exists k :: 0 <= k <= |s| && w <= s[k..]
  }

  lemma {:induction false} LikePercentMatchesAll(s: string)
    ensures Like(s, "%")
    decreases |s|
  {
    assert "%"[1..] == [];
    if s != [] {
      LikePercentMatchesAll(s[1..]);
    }
  }

  /** `s LIKE w%` for a literal w holds exactly when w is a prefix of s. */
  lemma {:induction false} LikePrefix(s: string, w: string)
    requires Literal(w)
    ensures Like(s, w + "%") <==> w <= s
    decreases |w|
  {
    if w == [] {
      assert w + "%" == "%";
      LikePercentMatchesAll(s);
    } else {
      var p := w + "%";
      assert p[0] == w[0] && p[1..] == w[1..] + "%";
      if s != [] {
        LikePrefix(s[1..], w[1..]);
        assert w <= s <==> (w[0] == s[0] && w[1..] <= s[1..]);
      }
    }
  }

  /** `s LIKE %w%` for a literal w holds exactly when w occurs in s. */
  lemma {:induction false} LikeSubstring(s: string, w: string)
    requires Literal(w)
    ensures Like(s, "%" + w + "%") <==> IsSubstring(w, s)
    decreases |s|
  {
    var p := "%" + w + "%";
    assert p[0] == '%' && p[1..] == w + "%";
    LikePrefix(s, w);
    if s == [] {
      if IsSubstring(w, s) {
        var k :| 0 <= k <= |s| && w <= s[k..];
        assert s[k..] == s;
      }
    } else {
      LikeSubstring(s[1..], w);
      if Like(s, p) {
        if w <= s {
          assert s[0..] == s;
        } else {
          var k :| 0 <= k <= |s[1..]| && w <= s[1..][k..];
          assert s[1..][k..] == s[k + 1..];
        }
      }
      if IsSubstring(w, s) {
        var k :| 0 <= k <= |s| && w <= s[k..];
        if k == 0 {
          assert s[k..] == s;
        } else {
          assert s[k..] == s[1..][k - 1..];
        }
      }
    }
  }

  /** With '%' around it, a bare '%' used as a pattern matches every string. */
  lemma {:induction false} LikePercentTermMatchesAll(s: string)
    ensures Like(s, "%%%")
  {
    assert "%%%"[1..] == "%%" && "%%"[1..] == "%";
    LikePercentMatchesAll(s);
  }

  /** With '%' around it, a bare '_' used as a pattern matches every non-empty string. */
  lemma {:induction false} LikeUnderscoreTermMatchesNonEmpty(s: string)
    requires s != []
    ensures Like(s, "%_%")
  {
    assert "%_%"[1..] == "_%" && "_%"[1..] == "%";
    LikePercentMatchesAll(s[1..]);
  }

  // ---------------------------------------------------------------------------
  // Lexicographic order by code point

  /** a comes no later than b in code-point lexicographic order. */
  predicate StrLe(a: string, b: string) {
    a == [] || (b != [] && (a[0] < b[0] || (a[0] == b[0] && StrLe(a[1..], b[1..]))))
  }

  lemma {:induction false} StrLeTotal(a: string, b: string)
    ensures StrLe(a, b) || StrLe(b, a)
    decreases |a|
  {
    if a != [] && b != [] && a[0] == b[0] {
      StrLeTotal(a[1..], b[1..]);
    }
  }

  lemma {:induction false} StrLeTransitive(a: string, b: string, c: string)
    requires StrLe(a, b) && StrLe(b, c)
    ensures StrLe(a, c)
    decreases |a|
  {
    if a != [] && a[0] == b[0] && b[0] == c[0] {
      StrLeTransitive(a[1..], b[1..], c[1..]);
    }
  }

  lemma {:induction false} StrLeAntisymmetric(a: string, b: string)
    requires StrLe(a, b) && StrLe(b, a)
    ensures a == b
    decreases |a|
  {
    if a != [] {
      StrLeAntisymmetric(a[1..], b[1..]);
      assert a == [a[0]] + a[1..] && b == [b[0]] + b[1..];
    }
  }
}
