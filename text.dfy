/** Text normalisation of FAQ questions (at corpus load) and of user queries
    (before lexical scoring). Character classes are those of Python's `str`
    methods and `re` module restricted to ASCII. */
module Text {

  /** Whitespace as `str.isspace`, `str.strip` and the regex class `\s` see it:
      space, tab, line feed, vertical tab, form feed, carriage return and the
      four information separators U+001C..U+001F. */
  predicate IsSpace(c: char) {
    c == ' ' || ('\t' <= c <= '\r') || ('\U{1C}' <= c <= '\U{1F}')
  }

  /** The regex class `\w`: letters, digits and the underscore. */
  predicate IsWordChar(c: char) {
    ('a' <= c <= 'z') || ('A' <= c <= 'Z') || ('0' <= c <= '9') || c == '_'
  }

  predicate IsUpper(c: char) {
    'A' <= c <= 'Z'
  }

  /** The characters that the regex `[^\w\s]` does NOT match. */
  predicate IsKept(c: char) {
    IsWordChar(c) || IsSpace(c)
  }

  predicate NoUpper(s: string) {
    forall c | c in s :: !IsUpper(c)
  }

  predicate OnlyWordOrSpace(s: string) {
    forall c | c in s :: IsKept(c)
  }

  /** No whitespace at either end. */
  predicate Trimmed(s: string) {
    s == [] || (!IsSpace(s[0]) && !IsSpace(s[|s| - 1]))
  }

  /** `str.lower` on one character. */
  function ToLower(c: char): (d: char)
    ensures !IsUpper(d)
    ensures IsWordChar(d) == IsWordChar(c) && IsSpace(d) == IsSpace(c)
  {
    if IsUpper(c) then (c as int + 32) as char else c
  }

  /** `str.lower`. */
  function Lower(s: string): (r: string)
    ensures |r| == |s|
    ensures forall i | 0 <= i < |s| :: r[i] == ToLower(s[i])
    ensures NoUpper(r)
  {
    seq(|s|, i requires 0 <= i < |s| => ToLower(s[i]))
  }

  /** `re.sub(r'[^\w\s]', '', s)`: every character that is neither a word
      character nor whitespace is deleted, the others keep their order. */
  function RemovePunctuation(s: string): (r: string)
    ensures |r| <= |s|
    ensures forall c | c in r :: c in s
    ensures OnlyWordOrSpace(r)
  {
    if s == [] then []
    else (if IsKept(s[0]) then [s[0]] else []) + RemovePunctuation(s[1..])
  }

  /** Where `str.lstrip()` cuts `s[..hi]`: the first position from the left
      that does not hold whitespace, or `hi` when there is none. */
  function TextStart(s: string, lo: nat, hi: nat): (k: nat)
    requires lo <= hi <= |s|
    ensures lo <= k <= hi
    ensures k == hi || !IsSpace(s[k])
    ensures forall i | lo <= i < k :: IsSpace(s[i])
    decreases hi - lo
  {
    if lo < hi && IsSpace(s[lo]) then TextStart(s, lo + 1, hi) else lo
  }

  /** Where `str.rstrip()` cuts `s[..hi]`: just past the last position from
      the right that does not hold whitespace, or 0 when there is none. */
  function TextEnd(s: string, hi: nat): (k: nat)
    requires hi <= |s|
    ensures k <= hi
    ensures k == 0 || !IsSpace(s[k - 1])
    ensures forall i | k <= i < hi :: IsSpace(s[i])
  {
    if 0 < hi && IsSpace(s[hi - 1]) then TextEnd(s, hi - 1) else hi
  }

  /** `r` is the slice of `s` starting at `lo` and everything of `s` around
      it is whitespace. */
  predicate StripsTo(s: string, lo: nat, r: string) {
    lo + |r| <= |s|
    && (forall i | 0 <= i < |r| :: r[i] == s[lo + i])
    && (forall i | 0 <= i < lo :: IsSpace(s[i]))
    && (forall i | lo + |r| <= i < |s| :: IsSpace(s[i]))
  }

  /** `str.strip()`, which is `str.rstrip()` followed by `str.lstrip()`:
      what is left after dropping the whitespace at both ends. */
  function Strip(s: string): (r: string)
    ensures Trimmed(r)
    ensures exists lo: nat :: StripsTo(s, lo, r)
    ensures forall c | c in r :: c in s
  {
    var hi := TextEnd(s, |s|);
    var lo := TextStart(s, 0, hi);
    assert StripsTo(s, lo, s[lo..hi]);
    s[lo..hi]
  }

  /** Stripping a string without whitespace at its ends changes nothing. */
  lemma StripTrimmed(s: string)
    requires Trimmed(s)
    ensures Strip(s) == s
  {
    assert TextEnd(s, |s|) == |s|;
    assert TextStart(s, 0, |s|) == 0;
  }

  /** The corpus normaliser of `load_and_preprocess_data`: lowercase, delete
      what is neither a word character nor whitespace, strip. */
  function NormalizeQuestion(s: string): (r: string)
    ensures NoUpper(r) && OnlyWordOrSpace(r) && Trimmed(r)
    ensures |r| <= |s|
  {
    Strip(RemovePunctuation(Lower(s)))
  }

  lemma {:induction false} RemovePunctuationPlain(s: string)
    requires OnlyWordOrSpace(s)
    ensures RemovePunctuation(s) == s
  {
    if s != [] {
      assert IsKept(s[0]);
      RemovePunctuationPlain(s[1..]);
    }
  }

  lemma {:induction false} RemovePunctuationAppend(a: string, b: string)
    ensures RemovePunctuation(a + b) == RemovePunctuation(a) + RemovePunctuation(b)
  {
    if a != [] {
      assert (a + b)[1..] == a[1..] + b;
      RemovePunctuationAppend(a[1..], b);
    } else {
      assert a + b == b;
    }
  }

  lemma LowerPlain(s: string)
    requires NoUpper(s)
    ensures Lower(s) == s
  {
    forall i | 0 <= i < |s| ensures Lower(s)[i] == s[i] {
      assert s[i] in s;
    }
  }

  lemma LowerAppend(a: string, b: string)
    ensures Lower(a + b) == Lower(a) + Lower(b)
  {
    forall i | 0 <= i < |a + b| ensures Lower(a + b)[i] == (Lower(a) + Lower(b))[i] {
      if i < |a| { assert (a + b)[i] == a[i]; } else { assert (a + b)[i] == b[i - |a|]; }
    }
  }

  /** Normalising twice is normalising once. */
  lemma NormalizeQuestionIdempotent(s: string)
    ensures NormalizeQuestion(NormalizeQuestion(s)) == NormalizeQuestion(s)
  {
    var t := NormalizeQuestion(s);
    LowerPlain(t);
    RemovePunctuationPlain(t);
    StripTrimmed(t);
  }

  /** Normalisation does not see case. */
  lemma NormalizeQuestionIgnoresCase(s: string)
    ensures NormalizeQuestion(Lower(s)) == NormalizeQuestion(s)
  {
    LowerPlain(Lower(s));
  }

  /** Normalisation does not see a punctuation mark, wherever it stands. */
  lemma NormalizeQuestionIgnoresPunctuation(a: string, p: char, b: string)
    requires !IsKept(p)
    ensures NormalizeQuestion(a + [p] + b) == NormalizeQuestion(a + b)
  {
    var la, lb := Lower(a), Lower(b);
    assert Lower(a + [p] + b) == la + [p] + lb by {
      LowerAppend(a + [p], b);
      LowerAppend(a, [p]);
      assert Lower([p]) == [p];
    }
    assert Lower(a + b) == la + lb by {
      LowerAppend(a, b);
    }
    assert RemovePunctuation(la + [p] + lb) == RemovePunctuation(la + lb) by {
      RemovePunctuationAppend(la + [p], lb);
      RemovePunctuationAppend(la, [p]);
      RemovePunctuationAppend(la, lb);
      assert RemovePunctuation([p]) == [];
      assert RemovePunctuation(la) + [] == RemovePunctuation(la);
    }
  }

  /** "Track My Order!" and "track my order" normalise to the same key. */
  lemma NormalizeQuestionExample(s: string, plain: string)
    requires s == "Track My Order!" && plain == "track my order"
    ensures NormalizeQuestion(s) == NormalizeQuestion(plain) == plain
  {
    LowerExample(s, plain);
    assert OnlyWordOrSpace(plain);
    RemovePunctuationPlain(plain);
    RemovePunctuationAppend(plain, "!");
    assert RemovePunctuation("!") == [];
    assert plain + [] == plain;
    LowerPlain(plain);
    StripTrimmed(plain);
  }

  /** Lowercasing "Track My Order!" gives "track my order!". */
  lemma LowerExample(s: string, plain: string)
    requires s == "Track My Order!" && plain == "track my order"
    ensures Lower(s) == plain + "!"
  {
    forall i | 0 <= i < |s| ensures Lower(s)[i] == (plain + "!")[i] {
      assert Lower(s)[i] == ToLower(s[i]);
    }
  }

  /** The text the query normaliser passes to `str.replace`: a regular
      expression written as a plain string, so it is matched literally. */
  const LiteralPattern: string := "[^\\w\\s]"

  /** `pat` occurs in `s` as a contiguous slice. */
  ghost predicate Occurs(pat: string, s: string) {
    exists i: nat :: OccursAt(pat, s, i)
  }

  predicate OccursAt(pat: string, s: string, i: nat) {
    i + |pat| <= |s| && s[i..i + |pat|] == pat
  }

  /** Text without an opening bracket cannot hold the pattern text. */
  lemma PatternNeedsBracket(s: string)
    requires '[' !in s
    ensures !Occurs(LiteralPattern, s)
  {
    forall i: nat | i + |LiteralPattern| <= |s| ensures !OccursAt(LiteralPattern, s, i) {
      assert s[i..i + |LiteralPattern|][0] == s[i];
      assert s[i] in s;
    }
  }

  /** `s.replace(pat, '')` for a non-empty `pat`: one left-to-right pass that
      deletes every non-overlapping occurrence of `pat`. */
  function DeleteLiteral(s: string, pat: string): (r: string)
    requires pat != []
    ensures |r| <= |s|
    ensures forall c | c in r :: c in s
    decreases |s|
  {
    if |s| < |pat| then s
    else if s[..|pat|] == pat then DeleteLiteral(s[|pat|..], pat)
    else [s[0]] + DeleteLiteral(s[1..], pat)
  }

  /** `str.replace` with a pattern that does not occur changes nothing. */
  lemma {:induction false} DeleteLiteralAbsent(s: string, pat: string)
    requires pat != [] && !Occurs(pat, s)
    ensures DeleteLiteral(s, pat) == s
    decreases |s|
  {
    if |s| >= |pat| {
      assert !OccursAt(pat, s, 0);
      assert !Occurs(pat, s[1..]) by {
        forall i: nat ensures !OccursAt(pat, s[1..], i) {
          if i + |pat| <= |s[1..]| {
            assert s[1..][i..i + |pat|] == s[i + 1..i + 1 + |pat|];
            assert !OccursAt(pat, s, i + 1);
          }
        }
      }
      DeleteLiteralAbsent(s[1..], pat);
      assert [s[0]] + s[1..] == s;
    }
  }

  /** The query normaliser of `tfidf_retrieval`: lowercase, delete the literal
      text `[^\w\s]`, strip. */
  function NormalizeQuery(q: string): (r: string)
    ensures NoUpper(r) && Trimmed(r)
    ensures |r| <= |q|
  {
    Strip(DeleteLiteral(Lower(q), LiteralPattern))
  }

  /** Unless the query holds the literal pattern text, the query normaliser
      only lowercases and strips: punctuation survives. */
  lemma NormalizeQueryLowersAndStrips(q: string)
    requires !Occurs(LiteralPattern, Lower(q))
    ensures NormalizeQuery(q) == Strip(Lower(q))
  {
    DeleteLiteralAbsent(Lower(q), LiteralPattern);
  }

  /** On text made only of word characters and whitespace both normalisers
      agree. */
  lemma NormalizeQueryAgreesOnPlainText(q: string)
    requires OnlyWordOrSpace(q)
    ensures NormalizeQuery(q) == NormalizeQuestion(q)
  {
    var l := Lower(q);
    assert OnlyWordOrSpace(l) by {
      forall c | c in l ensures IsKept(c) {
        var i :| 0 <= i < |l| && l[i] == c;
        assert q[i] in q;
      }
    }
    assert !IsKept('[');
    PatternNeedsBracket(l);
    DeleteLiteralAbsent(l, LiteralPattern);
    RemovePunctuationPlain(l);
  }

  /** The two normalisers differ on punctuation: the query keeps its "!". */
  lemma NormalizeQueryKeepsPunctuation(q: string, plain: string)
    requires q == "Track My Order!" && plain == "track my order"
    ensures NormalizeQuery(q) == plain + "!"
    ensures NormalizeQuestion(q) == plain
  {
    var l := Lower(q);
    assert l == plain + "!";
    assert '[' !in l;
    PatternNeedsBracket(l);
    NormalizeQueryLowersAndStrips(q);
    StripTrimmed(l);
    NormalizeQuestionExample(q, plain);
  }

  /** The literal pattern text itself is what the query normaliser deletes. */
  lemma NormalizeQueryDeletesPatternText(q: string)
    requires q == "a" + LiteralPattern + "b"
    ensures NormalizeQuery(q) == "ab"
  {
    var l := Lower(q);
    assert l == q;
    assert l[..|LiteralPattern|][0] == 'a' != LiteralPattern[0];
    assert l[1..][..|LiteralPattern|] == LiteralPattern;
    assert l[1..][|LiteralPattern|..] == "b";
    assert DeleteLiteral("b", LiteralPattern) == "b";
    assert DeleteLiteral(l, LiteralPattern) == "ab";
    StripTrimmed("ab");
  }
}
