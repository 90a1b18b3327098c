/**
 * String handling used by the recommender: the case-insensitive substring
 * test of title resolution (pandas `str.contains(..., case=False, regex=False)`,
 * which upper-cases both sides) and the word tokens of sequel suppression
 * (`re.findall(r'\b\w{4,}\b', name.lower())`).
 * Case mapping and the word-character class are ASCII only.
 */
module Text {

  /** Shortest word that counts as a token for sequel suppression. */
  const MinTokenLength: nat := 4

  function UpperChar(c: char): char
  {
    if 'a' <= c <= 'z' then (c as int - 32) as char else c
  }

  function LowerChar(c: char): char
  {
    if 'A' <= c <= 'Z' then (c as int + 32) as char else c
  }

  function Upper(s: string): (r: string)
    ensures |r| == |s|
  {
    seq(|s|, i requires 0 <= i < |s| => UpperChar(s[i]))
  }

  function Lower(s: string): (r: string)
    ensures |r| == |s|
    ensures forall i :: 0 <= i < |s| ==> r[i] == LowerChar(s[i])
  {
    seq(|s|, i requires 0 <= i < |s| => LowerChar(s[i]))
  }

  /** `p` occurs in `s` starting at position `i`. */
  ghost predicate OccursAt(s: string, p: string, i: int)
  {
    0 <= i && i + |p| <= |s| && s[i..i + |p|] == p
  }

  /** Plain substring test, scanning `s` from the left. */
  function Contains(s: string, p: string): (b: bool)
    ensures b <==> exists i :: OccursAt(s, p, i)
    decreases |s|
  {
    if |p| > |s| then
      false
    else if s[..|p|] == p then
      assert OccursAt(s, p, 0);
      true
    else
      var b := Contains(s[1..], p);
      assert b ==> exists i :: OccursAt(s, p, i) by {
        if b {
          var i :| OccursAt(s[1..], p, i);
          assert s[1..][i..i + |p|] == s[i + 1..i + 1 + |p|];
          assert OccursAt(s, p, i + 1);
        }
      }
      assert (exists i :: OccursAt(s, p, i)) ==> b by {
        if i :| OccursAt(s, p, i) {
          assert i != 0;
          assert s[1..][i - 1..i - 1 + |p|] == s[i..i + |p|];
          assert OccursAt(s[1..], p, i - 1);
        }
      }
      b
  }

  /**
   * pandas `name.str.contains(query, case=False, regex=False)`: both sides
   * are upper-cased, then searched as a plain substring.
   */
  function ContainsIgnoreCase(name: string, query: string): (b: bool)
    ensures b <==> exists i :: OccursAt(Upper(name), Upper(query), i)
  {
    Contains(Upper(name), Upper(query))
  }

  /** The regular-expression class `\w`, restricted to ASCII. */
  predicate IsWordChar(c: char)
  {
    'a' <= c <= 'z' || 'A' <= c <= 'Z' || '0' <= c <= '9' || c == '_'
  }

  /** Length of the longest prefix of `s` made of word characters. */
  function WordPrefixLength(s: string): (n: nat)
    ensures n <= |s|
    ensures forall i :: 0 <= i < n ==> IsWordChar(s[i])
    ensures n < |s| ==> !IsWordChar(s[n])
  {
    if s == [] || !IsWordChar(s[0]) then 0 else 1 + WordPrefixLength(s[1..])
  }

  /** The maximal runs of word characters of `s`, from left to right. */
  function Words(s: string): seq<string>
    decreases |s|
  {
    if s == [] then
      []
    else if !IsWordChar(s[0]) then
      Words(s[1..])
    else
      var n := WordPrefixLength(s);
      [s[..n]] + Words(s[n..])
  }

  /**
   * `s[i..j]` is a whole word: it is made of word characters and is bounded
   * on each side by the end of `s` or a non-word character, which is what
   * the two `\b` of the regular expression demand.
   */
  ghost predicate IsMaximalRun(s: string, i: int, j: int)
  {
    0 <= i < j <= |s|
    && (forall k :: i <= k < j ==> IsWordChar(s[k]))
    && (i == 0 || !IsWordChar(s[i - 1]))
    && (j == |s| || !IsWordChar(s[j]))
  }

  /** The lower-cased words of `name` that have at least four characters. */
  function Tokens(name: string): set<string>
  {
    set w | w in Words(Lower(name)) && |w| >= MinTokenLength
  }

  /** `Words(s)` lists exactly the maximal runs of word characters of `s`. */
  ghost predicate ListsMaximalRuns(s: string)
  {
    forall w :: w in Words(s) <==> exists i, j :: IsMaximalRun(s, i, j) && w == s[i..j]
  }

  /**
   * Dropping a prefix of length `d` shifts the maximal runs that start at
   * or after `d`, as long as the boundary before `d` is not inside a word.
   */
  lemma ShiftRun(s: string, d: nat, i: int, j: int)
    requires d <= |s| && d <= i
    requires i == d ==> d == 0 || !IsWordChar(s[d - 1])
    ensures IsMaximalRun(s, i, j) <==> IsMaximalRun(s[d..], i - d, j - d)
  {
    var t := s[d..];
    if IsMaximalRun(s, i, j) {
      assert forall k :: i - d <= k < j - d ==> t[k] == s[k + d];
    }
    if IsMaximalRun(t, i - d, j - d) {
      assert forall k :: i <= k < j ==> s[k] == t[k - d];
    }
  }

  /** Runs after a leading non-word character, shifted by one. */
  lemma RunAfterNonWord(s: string, i: int, j: int)
    requires s != [] && !IsWordChar(s[0])
    ensures IsMaximalRun(s[1..], i, j) ==> IsMaximalRun(s, i + 1, j + 1) && s[1..][i..j] == s[i + 1..j + 1]
    ensures IsMaximalRun(s, i, j) ==> IsMaximalRun(s[1..], i - 1, j - 1) && s[i..j] == s[1..][i - 1..j - 1]
  {
    if IsMaximalRun(s[1..], i, j) {
      ShiftRun(s, 1, i + 1, j + 1);
    }
    if IsMaximalRun(s, i, j) {
      ShiftRun(s, 1, i, j);
    }
  }

  lemma SkipNonWord(s: string)
    requires s != [] && !IsWordChar(s[0])
    requires ListsMaximalRuns(s[1..])
    ensures ListsMaximalRuns(s)
  {
    var t := s[1..];
    assert Words(s) == Words(t);
    forall w | w in Words(s)
      ensures exists i, j :: IsMaximalRun(s, i, j) && w == s[i..j]
    {
      var i, j :| IsMaximalRun(t, i, j) && w == t[i..j];
      RunAfterNonWord(s, i, j);
    }
    forall i, j | IsMaximalRun(s, i, j)
      ensures s[i..j] in Words(s)
    {
      RunAfterNonWord(s, i, j);
    }
  }

  /** The only maximal run that starts inside the leading word is that word. */
  lemma LeadingRun(s: string, i: int, j: int)
    requires s != [] && IsWordChar(s[0])
    requires IsMaximalRun(s, i, j) && i <= WordPrefixLength(s)
    ensures i == 0 && j == WordPrefixLength(s)
  {
  }

  /** A maximal run after the leading word, shifted back into `s`. */
  lemma LaterRun(s: string, n: nat, i: int, j: int)
    requires n <= |s| && (n < |s| ==> !IsWordChar(s[n]))
    requires IsMaximalRun(s[n..], i, j)
    ensures IsMaximalRun(s, i + n, j + n) && s[n..][i..j] == s[i + n..j + n]
  {
    var t := s[n..];
    assert 0 < i by {
      assert t[0] == s[n];
    }
    ShiftRun(s, n, i + n, j + n);
  }

  lemma TakeWord(s: string)
    requires s != [] && IsWordChar(s[0])
    requires ListsMaximalRuns(s[WordPrefixLength(s)..])
    ensures ListsMaximalRuns(s)
  {
    var n := WordPrefixLength(s);
    var t := s[n..];
    assert Words(s) == [s[..n]] + Words(t);
    assert IsMaximalRun(s, 0, n) && s[..n] == s[0..n];
    forall w | w in Words(s)
      ensures exists i, j :: IsMaximalRun(s, i, j) && w == s[i..j]
    {
      if w != s[..n] {
        assert w in Words(t);
        var i, j :| IsMaximalRun(t, i, j) && w == t[i..j];
        LaterRun(s, n, i, j);
      }
    }
    forall i, j | IsMaximalRun(s, i, j)
      ensures s[i..j] in Words(s)
    {
      if i <= n {
        LeadingRun(s, i, j);
      } else {
        ShiftRun(s, n, i, j);
        assert IsMaximalRun(t, i - n, j - n) && s[i..j] == t[i - n..j - n];
      }
    }
  }

  /** `Words` lists exactly the maximal runs of word characters. */
  lemma {:induction false} WordsAreMaximalRuns(s: string)
    ensures ListsMaximalRuns(s)
    decreases |s|
  {
    if s == [] {
    } else if !IsWordChar(s[0]) {
      WordsAreMaximalRuns(s[1..]);
      SkipNonWord(s);
    } else {
      WordsAreMaximalRuns(s[WordPrefixLength(s)..]);
      TakeWord(s);
    }
  }

  /**
   * A token of `name` is exactly a whole word of `name.lower()` of length at
   * least four: the matches of `\b\w{4,}\b`.
   */
  lemma TokensAreLongWords(name: string)
    ensures forall w :: w in Tokens(name) <==>
      exists i, j :: IsMaximalRun(Lower(name), i, j) && j - i >= MinTokenLength && w == Lower(name)[i..j]
  {
    WordsAreMaximalRuns(Lower(name));
  }
}
