/**
 * The older amount-in-words converter local to scripts/update-rates.ts. It
 * shares the tens table with utils/number-to-words.ts but has a single
 * twenty-entry table for 0..19, never writes "and" after "Hundred", has no
 * crore group (amounts of a crore and more read as hundreds of lakhs), and
 * ends in " Rupees" without "Only".
 *
 * `LegacyMatchesAmountWords` proves that below one crore the legacy words are
 * exactly the digit-by-digit words of the newer converter with every "and"
 * removed; `LegacyAgreesIff` says when the two outputs differ.
 */
module LegacyWords {
  import opened Strings
  import AmountWords

  const Ones: seq<string> :=
    ["", "One", "Two", "Three", "Four", "Five", "Six", "Seven", "Eight", "Nine",
     "Ten", "Eleven", "Twelve", "Thirteen", "Fourteen", "Fifteen", "Sixteen", "Seventeen", "Eighteen", "Nineteen"]

  /** The first ten entries are the units of the newer converter. */
  lemma OnesUnits(i: nat)
    requires i < 10
    ensures Ones[i] == AmountWords.Units[i]
  {
  }

  /** The last ten entries are its teens. */
  lemma OnesTeens(i: nat)
    requires 10 <= i < 20
    ensures Ones[i] == AmountWords.Teens[i - 10]
  {
  }

  lemma OnesWord(i: nat)
    requires 1 <= i < 20
    ensures AmountWords.PlainNumberWord(Ones[i])
  {
    if i < 10 {
      OnesUnits(i);
      AmountWords.UnitWord(i);
    } else {
      OnesTeens(i);
      AmountWords.TeenWord(i - 10);
    }
  }

  /** A phrase followed by a space, a word, and optionally a space and another
      phrase. */
  lemma SuffixPhrase(head: string, word: string, more: string)
    requires IsPhrase(head) && IsWord(word)
    requires more == "" || (|more| > 1 && more[0] == ' ' && IsPhrase(more[1..]))
    ensures IsPhrase(head + " " + word + more)
  {
    WordIsPhrase(word);
    PhraseConcat(head, word);
    if more != "" {
      PhraseConcat(head + " " + word, more[1..]);
      assert more == " " + more[1..];
      assert head + " " + word + " " + more[1..] == head + " " + word + more;
    } else {
      assert head + " " + word + more == head + " " + word;
    }
  }

  /** `head + suffix` where the suffix is a space and a word. */
  lemma SpaceWord(head: string, suffix: string, word: string, more: string)
    requires suffix == " " + word
    ensures head + suffix + more == head + " " + word + more
  {
  }

  lemma NamesAreWords()
    ensures IsWord("Hundred") && IsWord("Thousand") && IsWord("Lakh")
    ensures " Hundred" == " " + "Hundred" && " Thousand" == " " + "Thousand" && " Lakh" == " " + "Lakh"
  {
  }

  /** The optional tail `(num % d ? ' ' + convertToWords(num % d) : '')`. */
  lemma MoreIsSpacedPhrase(rest: nat, words: string)
    requires rest == 0 ==> words == ""
    requires rest > 0 ==> IsPhrase(words)
    ensures var more := if rest != 0 then " " + words else "";
      more == "" || (|more| > 1 && more[0] == ' ' && IsPhrase(more[1..]))
  {
    if rest != 0 {
      assert (" " + words)[1..] == words;
    }
  }

  /** `convertToWords` of scripts/update-rates.ts. */
  function ConvertToWords(num: nat): (r: string)
    ensures r == "" <==> num == 0
    ensures num > 0 ==> IsPhrase(r)
    decreases num
  {
    NamesAreWords();
    if num < 20 then
      (if num > 0 then OnesWord(num); Ones[num] else Ones[num])
    else if num < 100 then
      AmountWords.TensWord(num / 10);
      if num % 10 != 0 then
        OnesWord(num % 10);
        PhraseConcat(AmountWords.Tens[num / 10], Ones[num % 10]);
        AmountWords.Tens[num / 10] + " " + Ones[num % 10]
      else AmountWords.Tens[num / 10] + ""
    else if num < 1000 then
      var more := if num % 100 != 0 then " " + ConvertToWords(num % 100) else "";
      OnesWord(num / 100);
      MoreIsSpacedPhrase(num % 100, ConvertToWords(num % 100));
      SuffixPhrase(Ones[num / 100], "Hundred", more);
      SpaceWord(Ones[num / 100], " Hundred", "Hundred", more);
      Ones[num / 100] + " Hundred" + more
    else if num < AmountWords.Lakh then
      var more := if num % 1000 != 0 then " " + ConvertToWords(num % 1000) else "";
      MoreIsSpacedPhrase(num % 1000, ConvertToWords(num % 1000));
      SuffixPhrase(ConvertToWords(num / 1000), "Thousand", more);
      SpaceWord(ConvertToWords(num / 1000), " Thousand", "Thousand", more);
      ConvertToWords(num / 1000) + " Thousand" + more
    else
      var more := if num % AmountWords.Lakh != 0 then " " + ConvertToWords(num % AmountWords.Lakh) else "";
      MoreIsSpacedPhrase(num % AmountWords.Lakh, ConvertToWords(num % AmountWords.Lakh));
      SuffixPhrase(ConvertToWords(num / AmountWords.Lakh), "Lakh", more);
      SpaceWord(ConvertToWords(num / AmountWords.Lakh), " Lakh", "Lakh", more);
      ConvertToWords(num / AmountWords.Lakh) + " Lakh" + more
  }

  /** `numberToWords` of scripts/update-rates.ts. */
  function NumberToWords(amount: nat): (r: string)
    ensures EndsWith(r, " Rupees")
    ensures amount == 0 ==> r == " Rupees"
    ensures amount > 0 ==> r[..|r| - 7] == ConvertToWords(amount) && IsPhrase(r[..|r| - 7])
  {
    var r := ConvertToWords(amount) + " Rupees";
    assert r[..|r| - 7] == ConvertToWords(amount);
    assert r[|r| - 7..] == " Rupees";
    r
  }

  // ---------------------------------------------------------------------------
  // The legacy words are the newer words without "and"

  function WithoutAnd(ws: seq<string>): (r: seq<string>)
    ensures "and" !in r
    ensures forall w :: w in r ==> w in ws
  {
    if |ws| == 0 then []
    else if ws[0] == "and" then WithoutAnd(ws[1..])
    else [ws[0]] + WithoutAnd(ws[1..])
  }

  lemma {:induction false} WithoutAndConcat(a: seq<string>, b: seq<string>)
    ensures WithoutAnd(a + b) == WithoutAnd(a) + WithoutAnd(b)
    decreases |a|
  {
    if |a| > 0 {
      assert (a + b)[1..] == a[1..] + b;
      WithoutAndConcat(a[1..], b);
    } else {
      assert a + b == b;
    }
  }

  lemma {:induction false} WithoutAndKeeps(ws: seq<string>)
    requires "and" !in ws
    ensures WithoutAnd(ws) == ws
    decreases |ws|
  {
    if |ws| > 0 {
      assert ws[0] in ws;
      assert forall w :: w in ws[1..] ==> w in ws;
      WithoutAndKeeps(ws[1..]);
    }
  }

  /** The words of a phrase `a`, a group name, and an optional tail. */
  lemma JoinGroup(a: seq<string>, name: string, b: seq<string>)
    requires |a| > 0
    ensures Join(a + [name] + b) == Join(a) + " " + name + (if |b| == 0 then "" else " " + Join(b))
  {
    if |b| == 0 {
      assert a + [name] + b == a + [name];
      JoinAppend(a, [name]);
    } else {
      assert a + [name] + b == a + ([name] + b);
      assert ([name] + b)[1..] == b;
      JoinAppend(a, [name] + b);
    }
  }

  /** Below one hundred both converters produce the same words. */
  lemma LegacyBelowHundred(k: nat)
    requires k < 100
    ensures ConvertToWords(k) == Join(AmountWords.TwoDigitTokens(k))
  {
    if k < 10 {
      OnesUnits(k);
    } else if k < 20 {
      OnesTeens(k);
    } else if k % 10 != 0 {
      OnesUnits(k % 10);
      var ts := [AmountWords.Tens[k / 10], AmountWords.Units[k % 10]];
      assert AmountWords.TwoDigitTokens(k) == ts;
      assert ts[1..] == [AmountWords.Units[k % 10]];
    } else {
      assert AmountWords.TwoDigitTokens(k) == [AmountWords.Tens[k / 10]];
    }
  }

  lemma TwoDigitTokensOnly(k: nat)
    requires k < 100
    ensures AmountWords.Tokens(k) == AmountWords.TwoDigitTokens(k)
  {
    assert k / 100 == 0 && k % 100 == k;
  }

  lemma PlainWithoutAnd(ws: seq<string>)
    requires AmountWords.PlainWords(ws)
    ensures WithoutAnd(ws) == ws
  {
    assert "and" !in ws by {
      forall i | 0 <= i < |ws| ensures ws[i] != "and" {
        assert AmountWords.PlainNumberWord(ws[i]);
      }
    }
    WithoutAndKeeps(ws);
  }

  lemma TwoDigitWithoutAnd(k: nat)
    requires k < 100
    ensures AmountWords.Tokens(k) == AmountWords.TwoDigitTokens(k)
    ensures WithoutAnd(AmountWords.Tokens(k)) == AmountWords.TwoDigitTokens(k)
  {
    AmountWords.TwoDigitFacts(k);
    TwoDigitTokensOnly(k);
    PlainWithoutAnd(AmountWords.TwoDigitTokens(k));
  }

  /** The words of a value with a non-zero hundreds digit, without "and". */
  lemma HundredsWithoutAnd(n: nat)
    requires 100 <= n < 1000
    ensures WithoutAnd(AmountWords.Tokens(n))
         == [AmountWords.Units[n / 100]] + ["Hundred"] + AmountWords.TwoDigitTokens(n % 100)
  {
    var h, rest := n / 100, n % 100;
    var u := AmountWords.Units[h];
    var t := AmountWords.TwoDigitTokens(rest);
    AmountWords.UnitWord(h);
    AmountWords.TwoDigitFacts(rest);
    PlainWithoutAnd(t);
    var front := [u, "Hundred"];
    var mid: seq<string> := if rest > 0 then ["and"] else [];
    assert AmountWords.Tokens(n) == front + mid + t;
    WithoutAndConcat(front + mid, t);
    WithoutAndConcat(front, mid);
    assert WithoutAnd(mid) == [];
    assert WithoutAnd(front) == front by {
      assert front[1..] == ["Hundred"];
    }
  }

  /** The hundreds branch of the legacy converter in terms of the newer one's
      two-digit words. */
  lemma LegacyHundreds(n: nat)
    requires 100 <= n < 1000
    ensures ConvertToWords(n)
         == AmountWords.Units[n / 100] + " " + "Hundred"
            + (if n % 100 == 0 then "" else " " + Join(AmountWords.TwoDigitTokens(n % 100)))
  {
    var h, rest := n / 100, n % 100;
    OnesUnits(h);
    LegacyBelowHundred(rest);
    NamesAreWords();
    NamedText(Ones[h], " Hundred", "Hundred", rest, ConvertToWords(rest));
  }

  /** Below one thousand the legacy words drop the "and" after "Hundred". */
  lemma LegacyBelowThousand(n: nat)
    requires 0 < n < 1000
    ensures ConvertToWords(n) == Join(WithoutAnd(AmountWords.Tokens(n)))
  {
    if n < 100 {
      LegacyBelowHundred(n);
      TwoDigitWithoutAnd(n);
    } else {
      var t := AmountWords.TwoDigitTokens(n % 100);
      HundredsWithoutAnd(n);
      LegacyHundreds(n);
      AmountWords.TwoDigitFacts(n % 100);
      JoinGroup([AmountWords.Units[n / 100]], "Hundred", t);
    }
  }

  /** `x + suffix + (rest ? ' ' + words : '')` once the suffix is split into a
      space and a word. */
  lemma NamedText(x: string, suffix: string, name: string, rest: nat, words: string)
    requires suffix == " " + name
    requires rest == 0 <==> words == ""
    ensures x + suffix + (if rest != 0 then " " + words else "")
         == x + " " + name + (if words == "" then "" else " " + words)
  {
  }

  /** One group of the legacy converter: a multiplier below one hundred, the
      group name, and the words of the remainder when it is not zero. */
  lemma GroupStepJoin(q: nat, suffix: string, name: string, r: nat, w: seq<string>)
    requires 0 < q < 100 && suffix == " " + name
    requires r > 0 ==> ConvertToWords(r) == Join(w)
    requires r == 0 ==> w == []
    ensures ConvertToWords(q) + suffix + (if r != 0 then " " + ConvertToWords(r) else "")
         == Join(AmountWords.TwoDigitTokens(q) + [name] + w)
  {
    LegacyBelowHundred(q);
    AmountWords.TwoDigitFacts(q);
    JoinGroup(AmountWords.TwoDigitTokens(q), name, w);
    NamedText(ConvertToWords(q), suffix, name, r, ConvertToWords(r));
  }

  lemma ThousandsArithmetic(n: nat)
    requires AmountWords.Thousand <= n < AmountWords.Lakh
    ensures n / AmountWords.Crore == 0 && n % AmountWords.Crore / AmountWords.Lakh == 0
    ensures n % AmountWords.Lakh / AmountWords.Thousand == n / 1000 && n % AmountWords.Thousand == n % 1000
    ensures 0 < n / 1000 < 100
  {
  }

  lemma SmallArithmetic(n: nat)
    requires n < AmountWords.Thousand
    ensures n / AmountWords.Crore == 0 && n % AmountWords.Crore / AmountWords.Lakh == 0
    ensures n % AmountWords.Lakh / AmountWords.Thousand == 0 && n % AmountWords.Thousand == n
  {
  }

  /** Below one thousand the words are those of the last three digits. */
  lemma AmountTokensSmall(n: nat)
    requires n < AmountWords.Thousand
    ensures AmountWords.AmountTokens(n) == AmountWords.Tokens(n)
  {
    SmallArithmetic(n);
    assert AmountWords.AmountTokens(n) == [] + [] + [] + AmountWords.Tokens(n);
  }

  lemma AmountTokensThousands(n: nat)
    requires AmountWords.Thousand <= n < AmountWords.Lakh
    ensures AmountWords.AmountTokens(n)
         == AmountWords.TwoDigitTokens(n / 1000) + ["Thousand"] + AmountWords.Tokens(n % 1000)
  {
    var q, r := n / 1000, n % 1000;
    ThousandsArithmetic(n);
    TwoDigitTokensOnly(q);
    AmountWords.AmountTokensParts(n, 0, 0, q, r);
    var g := AmountWords.GroupTokens(q, "Thousand");
    assert g == AmountWords.Tokens(q) + ["Thousand"];
    assert AmountWords.GroupTokens(0, "Crore") == [] && AmountWords.GroupTokens(0, "Lakh") == [];
    AmountWords.DropEmpty(g, AmountWords.Tokens(r));
  }

  /** Below one lakh the legacy words are the newer words without "and". */
  lemma LegacyBelowLakh(n: nat)
    requires 0 < n < AmountWords.Lakh
    ensures ConvertToWords(n) == Join(WithoutAnd(AmountWords.AmountTokens(n)))
  {
    if n < AmountWords.Thousand {
      AmountTokensSmall(n);
      LegacyBelowThousand(n);
    } else {
      var q, r := n / 1000, n % 1000;
      var a := AmountWords.TwoDigitTokens(q);
      var w := WithoutAnd(AmountWords.Tokens(r));
      ThousandsArithmetic(n);
      AmountTokensThousands(n);
      TwoDigitWithoutAnd(q);
      WithoutAndConcat(AmountWords.Tokens(q) + ["Thousand"], AmountWords.Tokens(r));
      WithoutAndConcat(AmountWords.Tokens(q), ["Thousand"]);
      assert WithoutAnd(["Thousand"]) == ["Thousand"];
      if r > 0 {
        LegacyBelowThousand(r);
      } else {
        assert AmountWords.Tokens(r) == [];
      }
      NamesAreWords();
      GroupStepJoin(q, " Thousand", "Thousand", r, w);
    }
  }

  lemma LakhsArithmetic(n: nat)
    requires AmountWords.Lakh <= n < AmountWords.Crore
    ensures n / AmountWords.Crore == 0
    ensures n % AmountWords.Crore / AmountWords.Lakh == n / AmountWords.Lakh
    ensures 0 < n / AmountWords.Lakh < 100
    ensures var r := n % AmountWords.Lakh;
      && r / AmountWords.Crore == 0 && r % AmountWords.Crore / AmountWords.Lakh == 0
      && r % AmountWords.Lakh == r
      && n % AmountWords.Lakh / AmountWords.Thousand == r / AmountWords.Thousand
      && n % AmountWords.Thousand == r % AmountWords.Thousand
  {
  }

  lemma AmountTokensLakhs(n: nat)
    requires AmountWords.Lakh <= n < AmountWords.Crore
    ensures AmountWords.AmountTokens(n)
         == AmountWords.TwoDigitTokens(n / AmountWords.Lakh) + ["Lakh"]
            + AmountWords.AmountTokens(n % AmountWords.Lakh)
  {
    var q, r := n / AmountWords.Lakh, n % AmountWords.Lakh;
    var t3, r3 := r / AmountWords.Thousand, r % AmountWords.Thousand;
    LakhsArithmetic(n);
    TwoDigitTokensOnly(q);
    var g, t := AmountWords.GroupTokens(t3, "Thousand"), AmountWords.Tokens(r3);
    var front := AmountWords.Tokens(q) + ["Lakh"];
    AmountWords.AmountTokensParts(r, 0, 0, t3, r3);
    AmountWords.AmountTokensParts(n, 0, q, t3, r3);
    AmountWords.DropEmpty(g, t);
    DropEmptyFront(front, g, t);
  }

  lemma DropEmptyFront(front: seq<string>, g: seq<string>, t: seq<string>)
    ensures [] + front + g + t == front + (g + t)
  {
  }

  /** Below one crore the legacy words are exactly the digit-by-digit words of
      the newer converter with every "and" removed. */
  lemma LegacyMatchesAmountWords(n: nat)
    requires 0 < n < AmountWords.Crore
    ensures ConvertToWords(n) == Join(WithoutAnd(AmountWords.AmountTokens(n)))
  {
    if n < AmountWords.Lakh {
      LegacyBelowLakh(n);
    } else {
      var q, r := n / AmountWords.Lakh, n % AmountWords.Lakh;
      var w := WithoutAnd(AmountWords.AmountTokens(r));
      LakhsArithmetic(n);
      AmountTokensLakhs(n);
      TwoDigitWithoutAnd(q);
      WithoutAndConcat(AmountWords.TwoDigitTokens(q) + ["Lakh"], AmountWords.AmountTokens(r));
      WithoutAndConcat(AmountWords.TwoDigitTokens(q), ["Lakh"]);
      assert WithoutAnd(["Lakh"]) == ["Lakh"];
      if r > 0 {
        LegacyBelowLakh(r);
      } else {
        AmountTokensSmall(0);
        assert AmountWords.Tokens(0) == [];
      }
      NamesAreWords();
      GroupStepJoin(q, " Lakh", "Lakh", r, w);
    }
  }

  // ---------------------------------------------------------------------------
  // When the two converters agree

  function AndCount(ws: seq<string>): nat {
    if |ws| == 0 then 0 else (if ws[0] == "and" then 1 else 0) + AndCount(ws[1..])
  }

  /** Dropping the "and"s removes three letters and one word for each. */
  lemma {:induction false} WithoutAndLength(ws: seq<string>)
    ensures TotalLength(WithoutAnd(ws)) + 3 * AndCount(ws) == TotalLength(ws)
    ensures |WithoutAnd(ws)| + AndCount(ws) == |ws|
    ensures "and" in ws ==> AndCount(ws) > 0
    decreases |ws|
  {
    if |ws| > 0 {
      WithoutAndLength(ws[1..]);
      if ws[0] != "and" {
        assert ([ws[0]] + WithoutAnd(ws[1..]))[1..] == WithoutAnd(ws[1..]);
        assert "and" in ws ==> "and" in ws[1..];
      }
    }
  }

  /** Removing at least one "and" changes the joined words. */
  lemma JoinWithoutAndDiffers(ws: seq<string>)
    requires "and" in ws
    ensures Join(WithoutAnd(ws)) != Join(ws)
  {
    WithoutAndLength(ws);
    JoinLength(ws);
    var w := WithoutAnd(ws);
    if |w| > 0 {
      JoinLength(w);
    }
  }

  lemma NoAndInSmallGroup(m: nat, name: string)
    requires m < 100 && name != "and"
    ensures "and" !in AmountWords.GroupTokens(m, name)
  {
    TwoDigitTokensOnly(m);
    TwoDigitWithoutAnd(m);
    if m > 0 {
      assert "and" !in WithoutAnd(AmountWords.Tokens(m));
    }
  }

  /** Below one crore "and" is written only in the last three digits, when
      their hundreds digit and their last two digits are both non-zero. */
  lemma AndInAmount(n: nat)
    requires n < AmountWords.Crore
    ensures "and" in AmountWords.AmountTokens(n) <==> n % 1000 >= 100 && n % 100 != 0
  {
    var l, t, r := n / AmountWords.Lakh, n % AmountWords.Lakh / AmountWords.Thousand, n % AmountWords.Thousand;
    assert l < 100 && t < 100 && r == n % 1000 && r % 100 == n % 100;
    AmountWords.AmountTokensParts(n, 0, l, t, r);
    var gl, gt := AmountWords.GroupTokens(l, "Lakh"), AmountWords.GroupTokens(t, "Thousand");
    assert AmountWords.GroupTokens(0, "Crore") == [];
    NoAndInSmallGroup(l, "Lakh");
    NoAndInSmallGroup(t, "Thousand");
    AmountWords.TokensAnd(r);
    InFour("and", AmountWords.GroupTokens(0, "Crore"), gl, gt, AmountWords.Tokens(r));
  }

  lemma InFour<T>(x: T, a: seq<T>, b: seq<T>, c: seq<T>, d: seq<T>)
    ensures x in a + b + c + d <==> x in a || x in b || x in c || x in d
  {
    assert x in a + b + c + d <==> x in a + b + c || x in d;
    assert x in a + b + c <==> x in a + b || x in c;
  }

  lemma SuffixCancel(a: string, b: string, suffix: string)
    ensures a + suffix == b + suffix <==> a == b
  {
    if a + suffix == b + suffix {
      assert a == (a + suffix)[..|a|];
      assert b == (b + suffix)[..|b|];
    }
  }

  /** The legacy text with " Only" appended. */
  lemma LegacyOnly(n: nat)
    ensures NumberToWords(n) + " Only" == ConvertToWords(n) + " Rupees Only"
  {
    RupeesOnly(ConvertToWords(n));
  }

  lemma RupeesOnly(x: string)
    ensures x + " Rupees" + " Only" == x + " Rupees Only"
  {
  }

  /** The two texts agree exactly when dropping "and" changes nothing. */
  lemma AgreeWithoutAnd(n: nat)
    requires 0 < n < AmountWords.Crore
    ensures AmountWords.NumberToWords(n) == NumberToWords(n) + " Only"
        <==> Join(AmountWords.AmountTokens(n)) == Join(WithoutAnd(AmountWords.AmountTokens(n)))
  {
    var ws := AmountWords.AmountTokens(n);
    AmountWords.NumberToWordsReference(n);
    LegacyMatchesAmountWords(n);
    LegacyOnly(n);
    SuffixCancel(Join(ws), Join(WithoutAnd(ws)), " Rupees Only");
  }

  /** Below one crore the newer converter's text is the legacy text followed by
      " Only" exactly when the last three digits have no "and": their hundreds
      digit or their last two digits are zero. */
  lemma LegacyAgreesIff(n: nat)
    requires 0 < n < AmountWords.Crore
    ensures AmountWords.NumberToWords(n) == NumberToWords(n) + " Only"
        <==> (n % 1000 < 100 || n % 100 == 0)
  {
    var ws := AmountWords.AmountTokens(n);
    AgreeWithoutAnd(n);
    AndInAmount(n);
    if "and" in ws {
      JoinWithoutAndDiffers(ws);
    } else {
      WithoutAndKeeps(ws);
    }
  }

  /** Below one thousand the two helpers agree on 1..99 and on exact
      hundreds, and differ exactly where the newer one writes "and". */
  lemma HelperAgreesIff(n: nat)
    requires 0 < n < 1000
    ensures ConvertToWords(n) == AmountWords.BelowThousand(n) <==> n < 100 || n % 100 == 0
  {
    var ws := AmountWords.Tokens(n);
    LegacyBelowThousand(n);
    AmountWords.BelowThousandMatchesTokens(n);
    AmountWords.TokensAnd(n);
    if "and" in ws {
      JoinWithoutAndDiffers(ws);
    } else {
      WithoutAndKeeps(ws);
    }
  }

  // ---------------------------------------------------------------------------
  // Examples

  lemma LakhBranch(n: nat)
    requires n >= AmountWords.Lakh
    ensures ConvertToWords(n) == ConvertToWords(n / AmountWords.Lakh) + " Lakh"
      + (if n % AmountWords.Lakh != 0 then " " + ConvertToWords(n % AmountWords.Lakh) else "")
  {
  }

  lemma ThousandBranch(n: nat)
    requires AmountWords.Thousand <= n < AmountWords.Lakh
    ensures ConvertToWords(n) == ConvertToWords(n / 1000) + " Thousand"
      + (if n % 1000 != 0 then " " + ConvertToWords(n % 1000) else "")
  {
  }

  lemma HundredBranch(n: nat)
    requires 100 <= n < 1000
    ensures ConvertToWords(n) == Ones[n / 100] + " Hundred"
      + (if n % 100 != 0 then " " + ConvertToWords(n % 100) else "")
  {
  }

  /** A crore reads as one hundred lakhs: the legacy converter has no crore
      group. */
  lemma CroreAsLakhs()
    ensures ConvertToWords(AmountWords.Crore) == "One Hundred Lakh"
    ensures NumberToWords(AmountWords.Crore) == "One Hundred Lakh Rupees"
  {
    CroreWords(AmountWords.Crore);
    CroreText(Ones[1]);
  }

  /** One day at Joel's rate: no "and" after "Hundred". */
  lemma JoelRateWords()
    ensures ConvertToWords(8686) == "Eight Thousand Six Hundred Eighty Six"
    ensures NumberToWords(8686) == "Eight Thousand Six Hundred Eighty Six Rupees"
  {
    SixHundredEightySix();
    ThousandBranch(8686);
    JoelText(ConvertToWords(8), ConvertToWords(686));
    JoelRupees(ConvertToWords(8686));
  }

  // ---------------------------------------------------------------------------
  // Proof helpers for the examples. Each one evaluates a single amount step
  // by step, or splits one literal text into pieces, so that the solver never
  // has to unfold a whole literal at once.

  lemma CroreWords(n: nat)
    requires n == AmountWords.Crore
    ensures ConvertToWords(n) == Ones[1] + " Hundred" + " Lakh"
    ensures NumberToWords(n) == Ones[1] + " Hundred" + " Lakh" + " Rupees"
  {
    var q := n / AmountWords.Lakh;
    assert q == 100 && n % AmountWords.Lakh == 0;
    LakhBranch(n);
    HundredBranch(q);
    assert ConvertToWords(q) == Ones[1] + " Hundred";
  }

  lemma CroreText(u: string)
    requires u == "One"
    ensures u + " Hundred" + " Lakh" == "One Hundred Lakh"
    ensures u + " Hundred" + " Lakh" + " Rupees" == "One Hundred Lakh Rupees"
  {
  }

  lemma EightySix()
    ensures ConvertToWords(86) == "Eighty Six"
  {
    assert AmountWords.Tens[8] == "Eighty" && Ones[6] == "Six";
    assert ConvertToWords(86) == "Eighty" + " " + "Six";
  }

  lemma SixHundredEightySix()
    ensures ConvertToWords(686) == "Six Hundred Eighty Six"
  {
    EightySix();
    HundredBranch(686);
    HundredText686(Ones[6], ConvertToWords(86));
  }

  lemma HundredText686(u: string, w: string)
    requires u == "Six" && w == "Eighty Six"
    ensures u + " Hundred" + (" " + w) == "Six Hundred Eighty Six"
  {
  }

  lemma JoelText(e: string, w: string)
    requires e == "Eight" && w == "Six Hundred Eighty Six"
    ensures e + " Thousand" + (" " + w) == "Eight Thousand Six Hundred Eighty Six"
  {
  }

  lemma JoelRupees(w: string)
    requires w == "Eight Thousand Six Hundred Eighty Six"
    ensures w + " Rupees" == "Eight Thousand Six Hundred Eighty Six Rupees"
  {
  }
}
