// The comment pattern that both entry points compile,
// `(/\*.*?\*/|//.*?$)` with the MULTILINE and DOTALL flags,
// as a matcher that is tried at one position of a text.
//
// With DOTALL, `.` matches every character, newlines included; with MULTILINE,
// `$` matches just before every `\n` and at the end of the text.  So the first
// alternative is `/*` followed by the shortest run of characters that ends in
// `*/`, and the second is `//` followed by the shortest run that is followed by
// a newline or by the end of the text.  The alternatives are tried in order.
module CommentPattern {
  import opened Wrappers

  // `/*` starts at position i.
  predicate OpensBlock(s: string, i: nat) {
    i + 1 < |s| && s[i] == '/' && s[i + 1] == '*'
  }

  // `//` starts at position i.
  predicate OpensLine(s: string, i: nat) {
    i + 1 < |s| && s[i] == '/' && s[i + 1] == '/'
  }

  // `*/` starts at position k.
  predicate ClosesBlock(s: string, k: nat) {
    k + 1 < |s| && s[k] == '*' && s[k + 1] == '/'
  }

  // Position k is one where `$` matches under MULTILINE: before a `\n`, or the end of the text.
  predicate LineEndAt(s: string, k: nat) {
    k == |s| || (k < |s| && s[k] == '\n')
  }

  // ---------------------------------------------------------------------------
  // The matcher

  // The first position at or after j where `*/` starts, if there is one.
  function FindClose(s: string, j: nat): (r: Option<nat>)
    decreases |s| - j
    ensures r.Some? ==> j <= r.value && ClosesBlock(s, r.value)
    ensures r.Some? ==> forall k :: j <= k < r.value ==> !ClosesBlock(s, k)
    ensures r.None? ==> forall k :: j <= k ==> !ClosesBlock(s, k)
  {
    if j + 1 >= |s| then None
    else if ClosesBlock(s, j) then Some(j)
    else FindClose(s, j + 1)
  }

  // The first position at or after j where `$` matches.
  function FindLineEnd(s: string, j: nat): (r: nat)
    requires j <= |s|
    decreases |s| - j
    ensures j <= r <= |s| && LineEndAt(s, r)
    ensures forall k :: j <= k < r ==> s[k] != '\n'
  {
    if j == |s| || s[j] == '\n' then j else FindLineEnd(s, j + 1)
  }

  // The end (exclusive) of the match of the pattern at position i, or None when
  // the pattern does not match there.  The block alternative is tried first: its
  // `*/` must start after the opening two characters, so `/*/` does not close.
  function MatchAt(s: string, i: nat): (r: Option<nat>)
    ensures r.Some? ==> i + 2 <= r.value <= |s|
  {
    if OpensBlock(s, i) && FindClose(s, i + 2).Some? then Some(FindClose(s, i + 2).value + 2)
    else if OpensLine(s, i) then Some(FindLineEnd(s, i + 2))
    else None
  }

  // ---------------------------------------------------------------------------
  // What a comment is, stated without a search

  // t is `/*`, then text holding no `*/`, then `*/`: a block comment closed at the nearest `*/`.
  predicate IsBlockComment(t: string) {
    |t| >= 4 && t[0] == '/' && t[1] == '*' && t[|t| - 2] == '*' && t[|t| - 1] == '/'
    && forall k :: 2 <= k < |t| - 2 ==> !ClosesBlock(t, k)
  }

  // t is `//` followed by text on the same line.
  predicate IsLineComment(t: string) {
    |t| >= 2 && t[0] == '/' && t[1] == '/'
    && forall k :: 2 <= k < |t| ==> t[k] != '\n'
  }

  // s[i..e] is a comment in the sense of the pattern: a block comment, or a line comment running to the end of its line.
  predicate CommentAt(s: string, i: nat, e: nat) {
    i <= e <= |s| && (IsBlockComment(s[i..e]) || (IsLineComment(s[i..e]) && LineEndAt(s, e)))
  }

  // What MatchAt finds is a comment.
  lemma MatchAtSound(s: string, i: nat)
    ensures MatchAt(s, i).Some? ==> CommentAt(s, i, MatchAt(s, i).value)
  {
    if MatchAt(s, i).Some? {
      var e := MatchAt(s, i).value;
      var t := s[i..e];
      if OpensBlock(s, i) && FindClose(s, i + 2).Some? {
        forall k | 2 <= k < |t| - 2 ensures !ClosesBlock(t, k) {
          assert ClosesBlock(t, k) == ClosesBlock(s, i + k);
        }
        assert IsBlockComment(t);
      } else {
        forall k | 2 <= k < |t| ensures t[k] != '\n' {
          assert t[k] == s[i + k];
        }
        assert IsLineComment(t);
      }
    }
  }

  // Every comment starting at i is what MatchAt finds: the two alternatives are exclusive and each has one end.
  lemma MatchAtComplete(s: string, i: nat, e: nat)
    requires CommentAt(s, i, e)
    ensures MatchAt(s, i) == Some(e)
  {
    var t := s[i..e];
    if IsBlockComment(t) {
      assert OpensBlock(s, i) by { assert t[0] == s[i] && t[1] == s[i + 1]; }
      assert ClosesBlock(s, e - 2) by { assert t[|t| - 2] == s[e - 2] && t[|t| - 1] == s[e - 1]; }
      forall k | i + 2 <= k < e - 2 ensures !ClosesBlock(s, k) {
        assert ClosesBlock(t, k - i) == ClosesBlock(s, k);
      }
      assert FindClose(s, i + 2) == Some(e - 2);
    } else {
      assert OpensLine(s, i) by { assert t[0] == s[i] && t[1] == s[i + 1]; }
      forall k | i + 2 <= k < e ensures s[k] != '\n' {
        assert s[k] == t[k - i];
      }
      assert FindLineEnd(s, i + 2) == e;
    }
  }

  // A match at the start of a piece of the text is a match in the whole text at the same place.
  lemma PrefixMatchLifts(s: string, a: nat, b: nat)
    requires a <= b <= |s|
    ensures MatchAt(s[a..b], 0).Some? ==> MatchAt(s, a).Some?
  {
    var c := s[a..b];
    if MatchAt(c, 0).Some? {
      var e := MatchAt(c, 0).value;
      MatchAtSound(c, 0);
      assert c[0..e] == s[a..a + e];
      if IsBlockComment(c[0..e]) {
        MatchAtComplete(s, a, a + e);
      } else {
        assert c[0] == s[a] && c[1] == s[a + 1];
      }
    }
  }

  // A comment cut out of the text, matched on its own, matches as a whole.
  lemma CommentMatchesItself(s: string, i: nat, e: nat)
    requires CommentAt(s, i, e)
    ensures MatchAt(s[i..e], 0) == Some(e - i)
  {
    var t := s[i..e];
    assert t[0..|t|] == t;
    MatchAtComplete(t, 0, |t|);
  }
}
