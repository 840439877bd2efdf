/**
 * String helpers shared by the models: the JavaScript notion of whitespace,
 * `String.prototype.trim`, `String.prototype.includes`, UTF-16 length, and
 * space-joined phrases of words.
 */
module Strings {

  /** Characters matched by `\s` in an ECMAScript regular expression, which are
      also the characters `String.prototype.trim` strips (WhiteSpace and
      LineTerminator of the ECMAScript grammar). */
  predicate IsJsSpace(c: char)
    ensures IsJsSpace(c) ==> !IsLetter(c) && c != '@' && c != '.'
  {
    || c == ' ' || c == '\t' || c == '\n' || c == '\U{B}' || c == '\U{C}' || c == '\r'
    || c == '\U{A0}' || c == '\U{1680}'
    || ('\U{2000}' <= c <= '\U{200A}')
    || c == '\U{2028}' || c == '\U{2029}' || c == '\U{202F}' || c == '\U{205F}'
    || c == '\U{3000}' || c == '\U{FEFF}'
  }

  predicate IsLetter(c: char) {
    'A' <= c <= 'Z' || 'a' <= c <= 'z'
  }

  /** A word is a non-empty run of ASCII letters. */
  predicate IsWord(w: string) {
    |w| > 0 && forall i | 0 <= i < |w| :: IsLetter(w[i])
  }

  /** Only letters and spaces: in particular no digit and no punctuation. */
  predicate LettersAndSpaces(s: string) {
    forall i | 0 <= i < |s| :: IsLetter(s[i]) || s[i] == ' '
  }

  /** Words separated by single spaces, with no leading or trailing space. */
  predicate IsPhrase(s: string) {
    && |s| > 0
    && IsLetter(s[0])
    && IsLetter(s[|s| - 1])
    && LettersAndSpaces(s)
    && forall i | 0 <= i < |s| - 1 :: s[i] == ' ' ==> s[i + 1] != ' '
  }

  // ---------------------------------------------------------------------------
  // trim

  function TrimStart(s: string): (r: string)
    ensures |r| <= |s| && r == s[|s| - |r|..]
    ensures forall i | 0 <= i < |s| - |r| :: IsJsSpace(s[i])
    ensures |r| > 0 ==> !IsJsSpace(r[0])
  {
    if |s| > 0 && IsJsSpace(s[0]) then TrimStart(s[1..]) else s
  }

  function TrimEnd(s: string): (r: string)
    ensures |r| <= |s| && r == s[..|r|]
    ensures forall i | |r| <= i < |s| :: IsJsSpace(s[i])
    ensures |r| > 0 ==> !IsJsSpace(r[|r| - 1])
  {
    if |s| > 0 && IsJsSpace(s[|s| - 1]) then TrimEnd(s[..|s| - 1]) else s
  }

  /** `String.prototype.trim`: strips JavaScript whitespace from both ends. */
  function Trim(s: string): (r: string)
    ensures |r| > 0 ==> !IsJsSpace(r[0]) && !IsJsSpace(r[|r| - 1])
    ensures forall c :: c in r ==> c in s
  {
    TrimEnd(TrimStart(s))
  }

  /** Trimming leaves nothing exactly when the string is all whitespace. */
  lemma TrimEmptyIff(s: string)
    ensures Trim(s) == "" <==> forall i | 0 <= i < |s| :: IsJsSpace(s[i])
  {
    var t := TrimStart(s);
    TrimmedEmpty(s, t, TrimEnd(t));
  }

  /** A string that neither starts nor ends with whitespace is its own trim. */
  lemma TrimUnchanged(s: string)
    requires |s| > 0 && !IsJsSpace(s[0]) && !IsJsSpace(s[|s| - 1])
    ensures Trim(s) == s
  {
    assert TrimStart(s) == s;
  }

  /** What is left once a space-only prefix and then a space-only suffix are
      cut off is empty only if all of the original was space. */
  lemma TrimmedEmpty(s: string, t: string, r: string)
    requires |t| <= |s| && t == s[|s| - |t|..]
    requires forall i | 0 <= i < |s| - |t| :: IsJsSpace(s[i])
    requires |t| > 0 ==> !IsJsSpace(t[0])
    requires |r| <= |t| && r == t[..|r|]
    requires forall i | |r| <= i < |t| :: IsJsSpace(t[i])
    ensures r == "" <==> forall i | 0 <= i < |s| :: IsJsSpace(s[i])
  {
    if r == "" {
      assert |t| == 0;
    } else {
      assert t[0] == s[|s| - |t|];
    }
  }

  lemma TrimPhrase(p: string)
    requires IsPhrase(p)
    ensures Trim(p) == p
    ensures Trim(p + " ") == p
  {
    assert !IsJsSpace(p[0]) && !IsJsSpace(p[|p| - 1]);
    assert TrimStart(p) == p;
    assert (p + " ")[0] == p[0];
    assert TrimStart(p + " ") == p + " ";
    assert (p + " ")[..|p|] == p;
  }

  lemma LettersAndSpacesConcat(a: string, b: string)
    requires LettersAndSpaces(a) && LettersAndSpaces(b)
    ensures LettersAndSpaces(a + b)
  {
    forall i | 0 <= i < |a + b|
      ensures IsLetter((a + b)[i]) || (a + b)[i] == ' '
    {
      if i >= |a| {
        assert (a + b)[i] == b[i - |a|];
      }
    }
  }

  lemma LettersAndSpacesTrim(s: string)
    requires LettersAndSpaces(s)
    ensures LettersAndSpaces(Trim(s))
  {
    var r := Trim(s);
    forall i | 0 <= i < |r|
      ensures IsLetter(r[i]) || r[i] == ' '
    {
      assert r[i] in r;
    }
  }

  // ---------------------------------------------------------------------------
  // includes

  predicate StartsWith(s: string, prefix: string) {
    |prefix| <= |s| && s[..|prefix|] == prefix
  }

  predicate EndsWith(s: string, suffix: string) {
    |suffix| <= |s| && s[|s| - |suffix|..] == suffix
  }

  /** `String.prototype.includes`; the empty string is contained in everything. */
  predicate Contains(s: string, sub: string)
    ensures Contains(s, sub) ==> |sub| <= |s|
    ensures |sub| == 0 ==> Contains(s, sub)
  {
    StartsWith(s, sub) || (|s| > 0 && Contains(s[1..], sub))
  }

  lemma {:induction false} ContainsAt(s: string, sub: string, i: nat)
    requires i + |sub| <= |s| && s[i..i + |sub|] == sub
    ensures Contains(s, sub)
  {
    if i > 0 {
      assert s[1..][i - 1..i - 1 + |sub|] == s[i..i + |sub|];
      ContainsAt(s[1..], sub, i - 1);
    }
  }

  lemma {:induction false} ContainsWitness(s: string, sub: string) returns (i: nat)
    requires Contains(s, sub)
    ensures i + |sub| <= |s| && s[i..i + |sub|] == sub
  {
    if StartsWith(s, sub) {
      i := 0;
    } else {
      var j := ContainsWitness(s[1..], sub);
      assert s[1..][j..j + |sub|] == s[j + 1..j + 1 + |sub|];
      i := j + 1;
    }
  }

  /** `sub` occurs in `s` starting at position `i`. */
  predicate OccursAt(s: string, sub: string, i: nat) {
    i + |sub| <= |s| && s[i..i + |sub|] == sub
  }

  /** `includes` holds exactly when the string occurs at some position. */
  lemma ContainsIff(s: string, sub: string)
    ensures Contains(s, sub) <==> exists i: nat :: OccursAt(s, sub, i)
  {
    if Contains(s, sub) {
      var i := ContainsWitness(s, sub);
      assert OccursAt(s, sub, i);
    }
    if exists i: nat :: OccursAt(s, sub, i) {
      var i: nat :| OccursAt(s, sub, i);
      ContainsAt(s, sub, i);
    }
  }

  // ---------------------------------------------------------------------------
  // joining words

  /** The words joined by single spaces, like `Array.prototype.join(' ')`. */
  function Join(ws: seq<string>): string {
    if |ws| == 0 then ""
    else if |ws| == 1 then ws[0]
    else ws[0] + " " + Join(ws[1..])
  }

  predicate AllWords(ws: seq<string>) {
    forall i | 0 <= i < |ws| :: IsWord(ws[i])
  }

  lemma AllWordsConcat(a: seq<string>, b: seq<string>)
    requires AllWords(a) && AllWords(b)
    ensures AllWords(a + b)
  {
    forall i | 0 <= i < |a + b|
      ensures IsWord((a + b)[i])
    {
      if i >= |a| {
        assert (a + b)[i] == b[i - |a|];
      }
    }
  }

  lemma {:induction false} JoinAppend(a: seq<string>, b: seq<string>)
    requires |a| > 0 && |b| > 0
    ensures Join(a + b) == Join(a) + " " + Join(b)
    decreases |a|
  {
    if |a| == 1 {
      assert (a + b)[1..] == b;
    } else {
      assert (a + b)[1..] == a[1..] + b;
      JoinAppend(a[1..], b);
    }
  }

  lemma WordIsPhrase(w: string)
    requires IsWord(w)
    ensures IsPhrase(w)
  {
  }

  lemma PhraseConcat(a: string, b: string)
    requires IsPhrase(a) && IsPhrase(b)
    ensures IsPhrase(a + " " + b)
  {
    var s := a + " " + b;
    assert s[0] == a[0];
    assert s[|s| - 1] == b[|b| - 1];
    forall i | 0 <= i < |s|
      ensures IsLetter(s[i]) || s[i] == ' '
    {
      if i < |a| {
        assert s[i] == a[i];
      } else if i > |a| {
        assert s[i] == b[i - |a| - 1];
      }
    }
    forall i | 0 <= i < |s| - 1 && s[i] == ' '
      ensures s[i + 1] != ' '
    {
      if i + 1 < |a| {
        assert s[i] == a[i] && s[i + 1] == a[i + 1];
      } else if i == |a| {
        assert s[i + 1] == b[0];
      } else {
        assert s[i] == b[i - |a| - 1] && s[i + 1] == b[i - |a|];
      }
    }
  }

  /** Joining words gives a phrase: no leading, trailing or doubled space. */
  lemma {:induction false} JoinIsPhrase(ws: seq<string>)
    requires |ws| > 0 && AllWords(ws)
    ensures IsPhrase(Join(ws))
    decreases |ws|
  {
    WordIsPhrase(ws[0]);
    if |ws| > 1 {
      JoinIsPhrase(ws[1..]);
      PhraseConcat(ws[0], Join(ws[1..]));
    }
  }

  // ---------------------------------------------------------------------------
  // lengths

  /** Total number of characters in the words. */
  function TotalLength(ws: seq<string>): nat {
    if |ws| == 0 then 0 else |ws[0]| + TotalLength(ws[1..])
  }

  lemma {:induction false} JoinLength(ws: seq<string>)
    requires |ws| > 0
    ensures |Join(ws)| == TotalLength(ws) + |ws| - 1
    decreases |ws|
  {
    if |ws| > 1 {
      JoinLength(ws[1..]);
    }
  }

  /** `String.prototype.length`: the number of UTF-16 code units, so a
      character outside the Basic Multilingual Plane counts twice. */
  function Utf16Length(s: string): (n: nat)
    ensures |s| <= n <= 2 * |s|
    ensures n == |s| <==> forall i | 0 <= i < |s| :: s[i] as int <= 0xFFFF
    ensures n == 2 * |s| <==> forall i | 0 <= i < |s| :: s[i] as int > 0xFFFF
  {
    if |s| == 0 then 0
    else (if s[0] as int > 0xFFFF then 2 else 1) + Utf16Length(s[1..])
  }

  /** The code-unit count of a concatenation is the sum of the parts' counts. */
  lemma {:induction false} Utf16Concat(a: string, b: string)
    ensures Utf16Length(a + b) == Utf16Length(a) + Utf16Length(b)
    decreases |a|
  {
    if |a| == 0 {
      assert a + b == b;
    } else {
      assert (a + b)[0] == a[0];
      assert (a + b)[1..] == a[1..] + b;
      Utf16Concat(a[1..], b);
    }
  }
}
