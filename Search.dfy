/**
 * The matching that `searchNotes` asks of the database: `new RegExp(q, 'i')`
 * applied to a title or a content. For a query free of regular-expression
 * metacharacters such a pattern matches exactly the texts that contain the
 * query as a substring, letters compared without regard to case. Case is
 * folded for ASCII letters only.
 */
module Search {
  import opened Wrappers

  /** The characters with a special meaning in a JavaScript regular expression. */
  const Metacharacters: set<char> := {'\\', '^', '$', '.', '|', '?', '*', '+', '(', ')', '[', ']', '{', '}'}

  /** A query that a RegExp reads as a plain string. */
  predicate IsLiteral(q: string) {
    forall i :: 0 <= i < |q| ==> q[i] !in Metacharacters
  }

  /** The representative of a character's case class (ASCII letters only). */
  function Fold(c: char): char {
    if 'A' <= c <= 'Z' then (c as int + 32) as char else c
  }

  /** Two strings of equal length that agree letter by letter up to case. */
  predicate EqualIgnoringCase(s: string, t: string) {
    |s| == |t| && forall i :: 0 <= i < |s| ==> Fold(s[i]) == Fold(t[i])
  }

  /** The query occurs in the text at position i, up to case. */
  predicate MatchAt(q: string, text: string, i: int) {
    0 <= i <= |text| - |q| && EqualIgnoringCase(text[i..i + |q|], q)
  }

  /** The query occurs somewhere in the text, up to case. */
  ghost predicate OccursIn(q: string, text: string) {
    exists i :: MatchAt(q, text, i)
  }

  /** An occurrence in the text after the first position is one position further on in the text. */
  lemma MatchAtShift(q: string, text: string, j: nat)
    requires |text| > 0
    ensures MatchAt(q, text[1..], j) <==> MatchAt(q, text, j + 1)
  {
    if j + 1 + |q| <= |text| {
      var w := text[1..][j..j + |q|];
      assert w == text[j + 1..j + 1 + |q|];
    }
  }

  /**
   * An occurrence either starts at the first position or lies entirely in
   * the text after it.
   */
  lemma {:induction false} OccursInUnfold(q: string, text: string)
    requires |q| <= |text|
    ensures OccursIn(q, text) <==>
            EqualIgnoringCase(text[..|q|], q) || (|q| < |text| && OccursIn(q, text[1..]))
  {
    assert text[0..0 + |q|] == text[..|q|];
    if OccursIn(q, text) {
      var j :| MatchAt(q, text, j);
      if j > 0 {
        MatchAtShift(q, text, j - 1);
      }
    }
    if EqualIgnoringCase(text[..|q|], q) {
      assert MatchAt(q, text, 0);
    }
    if |q| < |text| && OccursIn(q, text[1..]) {
      var j :| MatchAt(q, text[1..], j);
      MatchAtShift(q, text, j);
    }
  }

  /**
   * A left-to-right scan for the query: true exactly when the query occurs
   * in the text, ignoring case.
   */
  function Contains(text: string, q: string): (r: bool)
    ensures r <==> OccursIn(q, text)
    decreases |text|
  {
    if |text| < |q| then false
    else
      OccursInUnfold(q, text);
      if EqualIgnoringCase(text[..|q|], q) then true
      else |q| < |text| && Contains(text[1..], q)
  }

  /**
   * `new RegExp(query, 'i')` tested on a text. A missing query builds the
   * empty pattern, which matches every text.
   */
  function Matches(query: Option<string>, text: string): (r: bool)
    ensures query.None? ==> r
    ensures query.Some? ==> (r <==> OccursIn(query.value, text))
  {
    match query
    case None => true
    case Some(q) => Contains(text, q)
  }

  /** Matching ignores the case of the query's ASCII letters. */
  lemma {:induction false} MatchesIgnoresQueryCase(q: string, q': string, text: string)
    requires EqualIgnoringCase(q, q')
    ensures Matches(Some(q), text) == Matches(Some(q'), text)
  {
    if Matches(Some(q), text) {
      var i :| MatchAt(q, text, i);
      assert MatchAt(q', text, i);
    }
    if Matches(Some(q'), text) {
      var i :| MatchAt(q', text, i);
      assert MatchAt(q, text, i);
    }
  }

  /** The query "hello" finds a note that reads "Hello World". */
  lemma HelloFindsHelloWorld()
    ensures Matches(Some("hello"), "Hello World")
  {
    assert MatchAt("hello", "Hello World", 0);
  }
}
