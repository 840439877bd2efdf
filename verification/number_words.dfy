/**
 * The amount-in-words converter of utils/number-to-words.ts: a whole number of
 * rupees rendered in English words with Indian grouping (Thousand, Lakh,
 * Crore), "and" after "Hundred", and the suffix " Rupees Only".
 *
 * `NumberToWords` follows the source step by step, including what JavaScript
 * does when the crore multiplier reaches 1000 and the hundreds digit indexes
 * past the end of the units table. `AmountTokens` is an independent,
 * digit-by-digit description of the words, and `NumberToWordsReference`
 * proves the two agree on every amount below `Limit`.
 */
module AmountWords {
  import opened Strings
  import opened Common

  const Units: seq<string> :=
    ["", "One", "Two", "Three", "Four", "Five", "Six", "Seven", "Eight", "Nine"]
  const Teens: seq<string> :=
    ["Ten", "Eleven", "Twelve", "Thirteen", "Fourteen", "Fifteen", "Sixteen", "Seventeen", "Eighteen", "Nineteen"]
  const Tens: seq<string> :=
    ["", "", "Twenty", "Thirty", "Forty", "Fifty", "Sixty", "Seventy", "Eighty", "Ninety"]

  const Thousand: nat := 1000
  const Lakh: nat := 100000
  const Crore: nat := 10000000
  /** The first amount whose crore multiplier has four digits. */
  const Limit: nat := 10000000000

  /** JavaScript array indexing: reading past the end yields `undefined`, which
      string concatenation renders as the text "undefined". */
  function Entry(table: seq<string>, i: nat): (w: string)
    ensures w in table || w == "undefined"
    ensures i < |table| ==> w == table[i]
  {
    if i < |table| then table[i] else "undefined"
  }

  /** No table entry is "and", "Hundred" or a group name. */
  predicate PlainNumberWord(w: string) {
    IsWord(w) && w != "and" && w != "Hundred" && w != "Thousand" && w != "Lakh" && w != "Crore"
  }

  lemma UnitWord(i: nat)
    requires 1 <= i < 10
    ensures PlainNumberWord(Units[i])
  {
  }

  lemma TeenWord(i: nat)
    requires i < 10
    ensures PlainNumberWord(Teens[i])
  {
  }

  lemma TensWord(i: nat)
    requires 2 <= i < 10
    ensures PlainNumberWord(Tens[i])
  {
  }

  lemma EntryWord(i: nat)
    requires 1 <= i
    ensures IsWord(Entry(Units, i))
  {
    if i < 10 {
      UnitWord(i);
    }
  }

  /** `convertLessThanOneThousand` below 100: a unit, a teen, or a tens word
      followed by a unit word when the last digit is not zero. */
  function BelowHundred(n: nat): (r: string)
    requires n < 100
    ensures r == "" <==> n == 0
    ensures n > 0 ==> IsPhrase(r)
  {
    if n == 0 then ""
    else if n < 10 then UnitWord(n); Units[n]
    else if n < 20 then TeenWord(n - 10); Teens[n - 10]
    else
      TensWord(n / 10);
      if n % 10 != 0 then
        UnitWord(n % 10);
        PhraseConcat(Tens[n / 10], Units[n % 10]);
        Tens[n / 10] + " " + Units[n % 10]
      else Tens[n / 10]
  }

  lemma HundredPhrase(u: string)
    requires IsWord(u)
    ensures IsPhrase(u + " Hundred")
  {
    assert IsWord("Hundred");
    PhraseConcat(u, "Hundred");
    assert u + " " + "Hundred" == u + " Hundred";
  }

  lemma HundredAndPhrase(u: string, rest: string)
    requires IsWord(u) && IsPhrase(rest)
    ensures IsPhrase(u + " Hundred" + (" and " + rest))
  {
    assert IsWord("and");
    HundredPhrase(u);
    PhraseConcat(u + " Hundred", "and");
    PhraseConcat(u + " Hundred" + " " + "and", rest);
    assert u + " Hundred" + " " + "and" + " " + rest == u + " Hundred" + (" and " + rest);
  }

  /** `convertLessThanOneThousand`. It is called only with values below 1000
      except for the crore multiplier of an amount of at least `Limit`, where
      the hundreds digit reads past the end of the units table. */
  function BelowThousand(n: nat): (r: string)
    ensures r == "" <==> n == 0
    ensures n > 0 ==> IsPhrase(r)
    decreases n
  {
    if n < 100 then BelowHundred(n)
    else
      var u := Entry(Units, n / 100);
      EntryWord(n / 100);
      if n % 100 != 0 then
        HundredAndPhrase(u, BelowThousand(n % 100));
        u + " Hundred" + (" and " + BelowThousand(n % 100))
      else
        HundredPhrase(u);
        u + " Hundred" + ""
  }

  /** One `if (num >= divisor)` block of the source: append the words of the
      quotient and the group name, and continue with the remainder. */
  function AddGroup(acc: string, n: nat, divisor: nat, name: string): (r: (string, nat))
    requires divisor > 0
    ensures r.1 == n % divisor
    ensures |acc| <= |r.0| && r.0[..|acc|] == acc
    ensures r.0 == acc <==> n < divisor
  {
    if n >= divisor then (acc + BelowThousand(n / divisor) + " " + name + " ", n % divisor)
    else (acc, n)
  }

  lemma BelowThousandLetters(n: nat)
    ensures LettersAndSpaces(BelowThousand(n))
  {
  }

  lemma AddGroupLetters(acc: string, n: nat, divisor: nat, name: string)
    requires divisor > 0 && LettersAndSpaces(acc) && IsWord(name)
    ensures LettersAndSpaces(AddGroup(acc, n, divisor, name).0)
  {
    if n >= divisor {
      var w := BelowThousand(n / divisor);
      BelowThousandLetters(n / divisor);
      LettersAndSpacesConcat(acc, w);
      LettersAndSpacesConcat(acc + w, " ");
      LettersAndSpacesConcat(acc + w + " ", name);
      LettersAndSpacesConcat(acc + w + " " + name, " ");
    }
  }

  /** The three `if (num >= divisor)` blocks of `numberToWords`: the words
      accumulated for the crore, lakh and thousand groups, and what is left. */
  function Groups(num: nat): (r: (string, nat))
    ensures r.1 == num % Thousand
    ensures r.0 == "" <==> num < Thousand
  {
    NestedRemainders(num);
    var (acc1, n1) := AddGroup("", num, Crore, "Crore");
    var (acc2, n2) := AddGroup(acc1, n1, Lakh, "Lakh");
    AddGroup(acc2, n2, Thousand, "Thousand")
  }

  lemma GroupsLetters(num: nat)
    ensures LettersAndSpaces(Groups(num).0)
  {
    GroupNamesAreWords();
    var (acc1, n1) := AddGroup("", num, Crore, "Crore");
    var (acc2, n2) := AddGroup(acc1, n1, Lakh, "Lakh");
    AddGroupLetters("", num, Crore, "Crore");
    AddGroupLetters(acc1, n1, Lakh, "Lakh");
    AddGroupLetters(acc2, n2, Thousand, "Thousand");
  }

  lemma SuffixLetters()
    ensures LettersAndSpaces(" Rupees Only")
  {
  }

  lemma ZeroLetters()
    ensures EndsWith("Zero Rupees Only", " Rupees Only")
    ensures LettersAndSpaces("Zero Rupees Only")
  {
    SuffixLetters();
    assert IsWord("Zero");
    LettersAndSpacesConcat("Zero", " Rupees Only");
    assert "Zero" + " Rupees Only" == "Zero Rupees Only";
  }

  /** `numberToWords` of utils/number-to-words.ts. */
  function NumberToWords(num: nat): (r: string)
    ensures EndsWith(r, " Rupees Only")
    ensures LettersAndSpaces(r)
  {
    if num == 0 then ZeroLetters(); "Zero Rupees Only"
    else
      var (acc, rest) := Groups(num);
      var words := acc + BelowThousand(rest);
      GroupsLetters(num);
      BelowThousandLetters(rest);
      LettersAndSpacesConcat(acc, BelowThousand(rest));
      LettersAndSpacesTrim(words);
      SuffixLetters();
      LettersAndSpacesConcat(Trim(words), " Rupees Only");
      Trim(words) + " Rupees Only"
  }

  lemma GroupNamesAreWords()
    ensures IsWord("Crore") && IsWord("Lakh") && IsWord("Thousand")
  {
  }

  // ---------------------------------------------------------------------------
  // The words digit by digit

  /** The words of 0..99. */
  function TwoDigitTokens(k: nat): seq<string>
    requires k < 100
  {
    if k == 0 then []
    else if k < 10 then [Units[k]]
    else if k < 20 then [Teens[k - 10]]
    else [Tens[k / 10]] + (if k % 10 > 0 then [Units[k % 10]] else [])
  }

  /** The words of 0..999: hundreds digit and "Hundred", "and" when both the
      hundreds digit and the last two digits are non-zero, then the last two
      digits. */
  function Tokens(n: nat): seq<string>
    requires n < 1000
  {
    var h := n / 100;
    (if h > 0 then [Units[h], "Hundred"] else [])
    + (if h > 0 && n % 100 > 0 then ["and"] else [])
    + TwoDigitTokens(n % 100)
  }

  /** A group multiplier followed by its name, or nothing for a zero multiplier. */
  function GroupTokens(m: nat, name: string): seq<string>
    requires m < 1000
  {
    if m == 0 then [] else Tokens(m) + [name]
  }

  /** The words of an amount: crore, lakh and thousand groups, then the rest. */
  function AmountTokens(num: nat): seq<string>
    requires num < Limit
  {
    GroupTokens(num / Crore, "Crore")
    + GroupTokens(num % Crore / Lakh, "Lakh")
    + GroupTokens(num % Lakh / Thousand, "Thousand")
    + Tokens(num % Thousand)
  }

  /** No word of a value below 1000 is "and", "Hundred" or a group name. */
  predicate PlainWords(ws: seq<string>) {
    forall i | 0 <= i < |ws| :: PlainNumberWord(ws[i])
  }

  lemma TwoDigitFacts(k: nat)
    requires k < 100
    ensures PlainWords(TwoDigitTokens(k))
    ensures |TwoDigitTokens(k)| == 0 <==> k == 0
  {
    if 0 < k < 10 {
      UnitWord(k);
    } else if 10 <= k < 20 {
      TeenWord(k - 10);
    } else if k >= 20 {
      TensWord(k / 10);
      if k % 10 > 0 {
        UnitWord(k % 10);
      }
    }
  }

  lemma TokensAreWords(n: nat)
    requires n < 1000
    ensures AllWords(Tokens(n))
    ensures |Tokens(n)| == 0 <==> n == 0
  {
    var h, rest := n / 100, n % 100;
    TwoDigitFacts(rest);
    if h > 0 {
      UnitWord(h);
      TablesWordsExtra();
      var front := [Units[h], "Hundred"] + (if rest > 0 then ["and"] else []);
      assert AllWords(front);
      assert Tokens(n) == front + TwoDigitTokens(rest);
      AllWordsConcat(front, TwoDigitTokens(rest));
    } else {
      assert Tokens(n) == TwoDigitTokens(rest);
    }
  }

  /** "and" appears exactly when the hundreds digit and the last two digits are
      both non-zero. */
  lemma TokensAnd(n: nat)
    requires n < 1000
    ensures "and" in Tokens(n) <==> n >= 100 && n % 100 != 0
  {
    var h, rest := n / 100, n % 100;
    TwoDigitFacts(rest);
    var tail := TwoDigitTokens(rest);
    assert forall i | 0 <= i < |tail| :: tail[i] != "and";
    if h > 0 {
      UnitWord(h);
      assert Tokens(n) == [Units[h], "Hundred"] + (if rest > 0 then ["and"] else []) + tail;
    } else {
      assert Tokens(n) == tail;
    }
  }

  lemma TokensWithoutGroupNames(n: nat)
    requires n < 1000
    ensures "Crore" !in Tokens(n) && "Lakh" !in Tokens(n) && "Thousand" !in Tokens(n)
  {
    var h, rest := n / 100, n % 100;
    TwoDigitFacts(rest);
    var tail := TwoDigitTokens(rest);
    if h > 0 {
      UnitWord(h);
      assert Tokens(n) == [Units[h], "Hundred"] + (if rest > 0 then ["and"] else []) + tail;
    } else {
      assert Tokens(n) == tail;
    }
  }

  lemma GroupTokensAreWords(m: nat, name: string)
    requires m < 1000 && IsWord(name)
    ensures AllWords(GroupTokens(m, name))
    ensures |GroupTokens(m, name)| == 0 <==> m == 0
  {
    TokensAreWords(m);
    if m > 0 {
      AllWordsConcat(Tokens(m), [name]);
    }
  }

  lemma TablesWordsExtra()
    ensures IsWord("Hundred") && IsWord("and")
  {
  }

  // ---------------------------------------------------------------------------
  // The source agrees with the digit-by-digit words

  lemma TwoDigitMatchesTokens(k: nat)
    requires k < 100
    ensures BelowThousand(k) == Join(TwoDigitTokens(k))
  {
  }

  lemma HundredJoin(u: string)
    ensures Join([u, "Hundred"]) == u + " Hundred" + ""
  {
    assert [u, "Hundred"][1..] == ["Hundred"];
    assert u + " " + "Hundred" == u + " Hundred" + "";
  }

  lemma HundredAndJoin(u: string, tail: seq<string>)
    requires |tail| > 0
    ensures Join([u, "Hundred"] + ["and"] + tail) == u + " Hundred" + (" and " + Join(tail))
  {
    var x := [u, "Hundred"];
    var y := ["and"] + tail;
    assert [u, "Hundred"] + ["and"] + tail == x + y;
    JoinAppend(x, y);
    JoinAppend(["and"], tail);
    HundredJoin(u);
    SpacedHundredAnd(u, Join(tail));
  }

  lemma SpacedHundredAnd(u: string, j: string)
    ensures u + " Hundred" + "" + " " + ("and" + " " + j) == u + " Hundred" + (" and " + j)
  {
  }

  lemma BelowThousandMatchesTokens(n: nat)
    requires n < 1000
    ensures BelowThousand(n) == Join(Tokens(n))
  {
    if n < 100 {
      TwoDigitsMatch(n);
    } else if n % 100 != 0 {
      HundredsAndMatch(n);
    } else {
      HundredsExactMatch(n);
    }
  }

  lemma TwoDigitsMatch(n: nat)
    requires n < 100
    ensures BelowThousand(n) == Join(Tokens(n))
  {
    assert n / 100 == 0 && n % 100 == n;
    assert Tokens(n) == TwoDigitTokens(n);
    TwoDigitMatchesTokens(n);
  }

  lemma HundredsAndMatch(n: nat)
    requires 100 <= n < 1000 && n % 100 != 0
    ensures BelowThousand(n) == Join(Tokens(n))
  {
    var rest := n % 100;
    var u := Units[n / 100];
    assert Entry(Units, n / 100) == u;
    TwoDigitMatchesTokens(rest);
    var tail := TwoDigitTokens(rest);
    TwoDigitFacts(rest);
    assert Tokens(n) == [u, "Hundred"] + ["and"] + tail;
    HundredAndJoin(u, tail);
  }

  lemma HundredsExactMatch(n: nat)
    requires 100 <= n < 1000 && n % 100 == 0
    ensures BelowThousand(n) == Join(Tokens(n))
  {
    var u := Units[n / 100];
    assert Entry(Units, n / 100) == u;
    assert Tokens(n) == [u, "Hundred"];
    HundredJoin(u);
  }

  /** The accumulator of the source after the words `ws` were appended. */
  function Pending(ws: seq<string>): string {
    if |ws| == 0 then "" else Join(ws) + " "
  }

  lemma SmallQuotient(n: nat, d: nat)
    requires n < d
    ensures n / d == 0 && n % d == n
  {
  }

  lemma PositiveQuotient(n: nat, d: nat)
    requires 0 < d <= n
    ensures n / d > 0
  {
  }

  /** The words of a non-zero group multiplier followed by the group name. */
  lemma GroupJoin(q: nat, name: string)
    requires 0 < q < 1000
    ensures Join(GroupTokens(q, name)) == BelowThousand(q) + " " + name
  {
    TokensAreWords(q);
    BelowThousandMatchesTokens(q);
    JoinAppend(Tokens(q), [name]);
  }

  /** A non-zero group appended to the accumulator. */
  lemma PendingGroup(ws: seq<string>, q: nat, name: string)
    requires 0 < q < 1000
    ensures Pending(ws) + BelowThousand(q) + " " + name + " " == Pending(ws + GroupTokens(q, name))
  {
    var b := BelowThousand(q);
    GroupJoin(q, name);
    PendingAppend(ws, GroupTokens(q, name), b + " " + name);
    SpacedName(Pending(ws), b, name);
  }

  lemma SpacedName(p: string, b: string, name: string)
    ensures p + b + " " + name + " " == p + (b + " " + name) + " "
  {
  }

  /** Appending the words `g`, which join to `text`, to the accumulator. */
  lemma PendingAppend(ws: seq<string>, g: seq<string>, text: string)
    requires |g| > 0 && Join(g) == text
    ensures Pending(ws) + text + " " == Pending(ws + g)
  {
    if |ws| > 0 {
      PendingNonEmpty(ws, g);
    } else {
      assert ws + g == g;
    }
  }

  lemma PendingNonEmpty(ws: seq<string>, g: seq<string>)
    requires |ws| > 0 && |g| > 0
    ensures Pending(ws + g) == Join(ws) + " " + Join(g) + " "
    ensures Pending(ws) == Join(ws) + " "
  {
    JoinAppend(ws, g);
  }

  lemma AddGroupMatchesTokens(ws: seq<string>, n: nat, divisor: nat, name: string)
    requires divisor > 0 && n / divisor < 1000
    ensures AddGroup(Pending(ws), n, divisor, name)
         == (Pending(ws + GroupTokens(n / divisor, name)), n % divisor)
  {
    if n >= divisor {
      PositiveQuotient(n, divisor);
      PendingGroup(ws, n / divisor, name);
    } else {
      SmallQuotient(n, divisor);
      assert ws + GroupTokens(0, name) == ws;
    }
  }

  /** The place values of an amount below `Limit`. */
  lemma GroupArithmetic(num: nat)
    requires num < Limit
    ensures num / Crore < 1000
    ensures num % Crore / Lakh < 100 && num % Lakh / Thousand < 100
    ensures num % Crore % Lakh == num % Lakh
    ensures num % Lakh % Thousand == num % Thousand
    ensures num == num / Crore * Crore + num % Crore / Lakh * Lakh
                   + num % Lakh / Thousand * Thousand + num % Thousand
  {
    NestedRemainders(num);
    GroupSum(num, num / Crore, num % Crore, num % Lakh);
  }

  /** Each place value divides the one above it. */
  lemma NestedRemainders(num: nat)
    ensures num % Crore % Lakh == num % Lakh
    ensures num % Lakh % Thousand == num % Thousand
  {
    NestedLiterals(num);
  }

  lemma NestedLiterals(num: nat)
    ensures num % 10000000 % 100000 == num % 100000
    ensures num % 100000 % 1000 == num % 1000
  {
  }

  /** Taking the crore, lakh and thousand multipliers off in turn loses nothing. */
  lemma GroupSum(num: nat, c: nat, below: nat, rest: nat)
    requires c == num / Crore && below == num % Crore && rest == num % Lakh
    requires below % Lakh == rest && rest % Thousand == num % Thousand
    ensures num == c * Crore + below / Lakh * Lakh + rest / Thousand * Thousand + num % Thousand
  {
    DivMod(num, Crore);
    DivMod(below, Lakh);
    DivMod(rest, Thousand);
  }

  /** Euclidean division by a positive divisor. */
  lemma DivMod(a: nat, d: nat)
    requires d > 0
    ensures a == a / d * d + a % d
  {
  }

  /** The first three groups of `AmountTokens`. */
  function GroupWords(num: nat): seq<string>
    requires num < Limit
  {
    GroupTokens(num / Crore, "Crore")
    + GroupTokens(num % Crore / Lakh, "Lakh")
    + GroupTokens(num % Lakh / Thousand, "Thousand")
  }

  lemma GroupsMatchTokens(num: nat)
    requires num < Limit
    ensures Groups(num) == (Pending(GroupWords(num)), num % Thousand)
  {
    GroupArithmetic(num);
    var g1 := GroupTokens(num / Crore, "Crore");
    var g2 := GroupTokens(num % Crore / Lakh, "Lakh");
    AddGroupMatchesTokens([], num, Crore, "Crore");
    assert [] + g1 == g1;
    AddGroupMatchesTokens(g1, num % Crore, Lakh, "Lakh");
    AddGroupMatchesTokens(g1 + g2, num % Lakh, Thousand, "Thousand");
  }

  lemma GroupWordsFacts(num: nat)
    requires num < Limit
    ensures AllWords(GroupWords(num))
    ensures |GroupWords(num)| == 0 <==> num < Thousand
  {
    GroupArithmetic(num);
    GroupNamesAreWords();
    var g1 := GroupTokens(num / Crore, "Crore");
    var g2 := GroupTokens(num % Crore / Lakh, "Lakh");
    var g3 := GroupTokens(num % Lakh / Thousand, "Thousand");
    GroupTokensAreWords(num / Crore, "Crore");
    GroupTokensAreWords(num % Crore / Lakh, "Lakh");
    GroupTokensAreWords(num % Lakh / Thousand, "Thousand");
    AllWordsConcat(g1, g2);
    AllWordsConcat(g1 + g2, g3);
    GroupsZero(num);
  }

  /** All three group multipliers are zero exactly below one thousand. */
  lemma GroupsZero(num: nat)
    ensures (num / Crore == 0 && num % Crore / Lakh == 0 && num % Lakh / Thousand == 0) <==> num < Thousand
  {
  }

  /** Trimming the accumulated groups followed by the last three digits. */
  lemma FinishMatches(g: seq<string>, t: seq<string>)
    requires AllWords(g) && AllWords(t) && |g + t| > 0
    ensures AllWords(g + t)
    ensures Trim(Pending(g) + Join(t)) == Join(g + t)
    ensures IsPhrase(Join(g + t))
  {
    AllWordsConcat(g, t);
    JoinIsPhrase(g + t);
    if |g| > 0 && |t| > 0 {
      JoinAppend(g, t);
      TrimPhrase(Join(g + t));
    } else if |t| == 0 {
      assert g + t == g;
      assert Pending(g) + Join(t) == Join(g) + " ";
      TrimPhrase(Join(g));
    } else {
      assert g + t == t;
      assert Pending(g) + Join(t) == Join(t);
      TrimPhrase(Join(t));
    }
  }

  /** Every amount below `Limit` reads as its digit-by-digit words followed by
      " Rupees Only", and those words form a phrase: no leading, trailing or
      doubled space. */
  lemma NumberToWordsReference(num: nat)
    requires 0 < num < Limit
    ensures AllWords(AmountTokens(num)) && |AmountTokens(num)| > 0
    ensures NumberToWords(num) == Join(AmountTokens(num)) + " Rupees Only"
    ensures IsPhrase(Join(AmountTokens(num)))
  {
    var g, r := GroupWords(num), num % Thousand;
    assert AmountTokens(num) == g + Tokens(r);
    GroupsMatchTokens(num);
    GroupWordsFacts(num);
    TokensAreWords(r);
    BelowThousandMatchesTokens(r);
    FinishMatches(g, Tokens(r));
  }

  /** The Crore, Lakh and Thousand groups appear exactly when their multiplier
      is non-zero; `AmountTokens` already places them in that order. */
  lemma GroupPresence(num: nat)
    requires num < Limit
    ensures "Crore" in AmountTokens(num) <==> num >= Crore
    ensures "Lakh" in AmountTokens(num) <==> num % Crore >= Lakh
    ensures "Thousand" in AmountTokens(num) <==> num % Lakh >= Thousand
  {
    GroupArithmetic(num);
    NameInAmount(num, "Crore");
    NameInAmount(num, "Lakh");
    NameInAmount(num, "Thousand");
  }

  lemma NameInAmount(num: nat, other: string)
    requires num < Limit && other in {"Crore", "Lakh", "Thousand"}
    ensures other in AmountTokens(num) <==>
      (other == "Crore" && num / Crore > 0)
      || (other == "Lakh" && num % Crore / Lakh > 0)
      || (other == "Thousand" && num % Lakh / Thousand > 0)
  {
    GroupArithmetic(num);
    var c, l, t, r := num / Crore, num % Crore / Lakh, num % Lakh / Thousand, num % Thousand;
    NameInGroup(c, "Crore", other);
    NameInGroup(l, "Lakh", other);
    NameInGroup(t, "Thousand", other);
    TokensWithoutGroupNames(r);
    assert AmountTokens(num)
        == GroupTokens(c, "Crore") + GroupTokens(l, "Lakh") + GroupTokens(t, "Thousand") + Tokens(r);
  }

  lemma NameInGroup(m: nat, name: string, other: string)
    requires m < 1000 && other in {"Crore", "Lakh", "Thousand"}
    ensures other in GroupTokens(m, name) <==> m > 0 && other == name
  {
    TokensWithoutGroupNames(m);
  }

  // ---------------------------------------------------------------------------
  // Test vectors

  lemma ZeroVector()
    ensures NumberToWords(0) == "Zero Rupees Only"
  {
  }

  /** The hundreds branch of `convertLessThanOneThousand`. */
  lemma HundredsWords(n: nat)
    requires 100 <= n < 1000 && n % 100 != 0
    ensures BelowThousand(n) == Units[n / 100] + " Hundred" + (" and " + BelowThousand(n % 100))
  {
  }

  lemma BelowThousandVector()
    ensures BelowThousand(347) == "Three Hundred and Forty Seven"
  {
    FortySeven();
    HundredsWords(347);
    ThreeHundredFortySeven(Units[3]);
  }

  /** Below one thousand there is no group and nothing to trim. */
  lemma SmallAmount(num: nat)
    requires 0 < num < Thousand
    ensures NumberToWords(num) == BelowThousand(num) + " Rupees Only"
  {
    GroupsMatchTokens(num);
    GroupWordsFacts(num);
    TrimPhrase(BelowThousand(num));
  }

  lemma AmountVector()
    ensures NumberToWords(347) == "Three Hundred and Forty Seven Rupees Only"
  {
    Words347(347);
    Suffix347("Three Hundred and Forty Seven");
  }

  /** `AmountTokens` with its four place values named. */
  lemma AmountTokensParts(n: nat, c: nat, l: nat, t: nat, r: nat)
    requires n < Limit
    requires c == n / Crore && l == n % Crore / Lakh
    requires t == n % Lakh / Thousand && r == n % Thousand
    ensures c < 1000 && l < 1000 && t < 1000 && r < 1000
    ensures AmountTokens(n)
         == GroupTokens(c, "Crore") + GroupTokens(l, "Lakh")
            + GroupTokens(t, "Thousand") + Tokens(r)
  {
    GroupArithmetic(n);
  }

  lemma LakhVector()
    ensures NumberToWords(100000) == "One Lakh Rupees Only"
  {
    OneLakhWords(100000);
    OneLakhText(Units[1]);
  }

  /** An amount of two words reads as those words and the suffix. */
  lemma TwoWordAmount(n: nat, a: string, b: string)
    requires 0 < n < Limit && AmountTokens(n) == [a, b]
    ensures NumberToWords(n) == a + " " + b + " Rupees Only"
  {
    NumberToWordsReference(n);
    JoinPair(a, b);
  }

  lemma CroreVector()
    ensures NumberToWords(10000000) == "One Crore Rupees Only"
  {
    OneCroreWords(10000000);
    OneCroreText(Units[1]);
  }

  /** An amount of one to nine thousand and a remainder. */
  lemma SingleThousands(n: nat, t: nat, r: nat)
    requires Thousand <= n < 10 * Thousand && t == n / Thousand && r == n % Thousand
    ensures AmountTokens(n) == [Units[t], "Thousand"] + Tokens(r)
  {
    AmountTokensParts(n, 0, 0, t, r);
    TokensUnit(t);
    var g := GroupTokens(t, "Thousand");
    assert g == [Units[t], "Thousand"];
    assert GroupTokens(0, "Crore") == [] && GroupTokens(0, "Lakh") == [];
    DropEmpty(g, Tokens(r));
  }

  /** One day at the rate of scripts/update-rates.ts:22. */
  lemma RateVector()
    ensures NumberToWords(8686) == "Eight Thousand Six Hundred and Eighty Six Rupees Only"
  {
    RateWords(8686);
    RateSuffix("Eight Thousand Six Hundred and Eighty Six");
  }

  // ---------------------------------------------------------------------------
  // Amounts of `Limit` and beyond

  /** As written, the crore multiplier 1000 sends the hundreds digit 10 past the
      end of the units table, and the words start with "undefined". */
  lemma LimitReadsUndefined()
    ensures NumberToWords(Limit) == "undefined Hundred Crore Rupees Only"
  {
    LimitWords(Limit);
    ThousandReadsUndefined();
    LimitText(BelowThousand(1000));
  }

  /** An amount whose groups leave no remainder reads as their words, trimmed. */
  lemma WholeGroups(num: nat, p: string)
    requires num > 0 && IsPhrase(p) && Groups(num) == (p + " ", 0)
    ensures NumberToWords(num) == p + " Rupees Only"
  {
    assert BelowThousand(0) == "";
    assert p + " " + "" == p + " ";
    TrimPhrase(p);
  }

  lemma ThousandReadsUndefined()
    ensures BelowThousand(1000) == "undefined Hundred"
  {
    assert Entry(Units, 10) == "undefined";
  }

  datatype AmountError = InvalidAmount

  /** The converter with the range the tables support made explicit: negative
      amounts and amounts of `Limit` or more are rejected instead of being
      rendered with "undefined". */
  function AmountInWords(amount: int): (r: Result<string, AmountError>)
    ensures r.Ok? <==> 0 <= amount < Limit
    ensures r.Ok? ==> r.value == NumberToWords(amount)
    ensures r.Ok? && amount == 0 ==> r.value == "Zero Rupees Only"
    ensures r.Ok? && amount > 0 ==>
      r.value == Join(AmountTokens(amount)) + " Rupees Only"
      && forall i | 0 <= i < |AmountTokens(amount)| :: IsWord(AmountTokens(amount)[i])
  {
    if amount < 0 || amount >= Limit then Err(InvalidAmount)
    else
      (if amount > 0 then NumberToWordsReference(amount); Ok(NumberToWords(amount))
       else Ok(NumberToWords(amount)))
  }

  // ---------------------------------------------------------------------------
  // Proof helpers for the test vectors. Each one evaluates a single amount
  // step by step, or splits one literal text into pieces, so that the solver
  // never has to unfold a whole literal at once.

  lemma FortySeven()
    ensures BelowThousand(47) == "Forty Seven"
  {
    assert Tens[4] == "Forty" && Units[7] == "Seven";
    assert BelowHundred(47) == "Forty" + " " + "Seven";
  }

  lemma ThreeHundredFortySeven(u: string)
    requires u == "Three"
    ensures u + " Hundred" + (" and " + "Forty Seven") == "Three Hundred and Forty Seven"
  {
  }

  lemma Words347(n: nat)
    requires n == 347
    ensures NumberToWords(n) == "Three Hundred and Forty Seven" + " Rupees Only"
  {
    BelowThousandVector();
    SmallAmount(n);
  }

  lemma Suffix347(w: string)
    requires w == "Three Hundred and Forty Seven"
    ensures w + " Rupees Only" == "Three Hundred and Forty Seven Rupees Only"
  {
  }

  lemma TokensUnit(k: nat)
    requires 1 <= k < 10
    ensures Tokens(k) == [Units[k]]
  {
    assert k / 100 == 0 && k % 100 == k;
  }

  lemma JoinPair(a: string, b: string)
    ensures Join([a, b]) == a + " " + b
  {
    assert [a, b][1..] == [b];
  }

  lemma OneLakhWords(n: nat)
    requires n == Lakh
    ensures NumberToWords(n) == Units[1] + " " + "Lakh" + " Rupees Only"
  {
    OneLakhTokens(n);
    TwoWordAmount(n, Units[1], "Lakh");
  }

  lemma OneLakhTokens(n: nat)
    requires n == Lakh
    ensures AmountTokens(n) == [Units[1], "Lakh"]
  {
    AmountTokensParts(n, 0, 1, 0, 0);
    TokensUnit(1);
    var g := GroupTokens(1, "Lakh");
    assert g == [Units[1], "Lakh"];
    EmptyGroups();
    DropAround(g);
  }

  /** A zero multiplier contributes no words. */
  lemma EmptyGroups()
    ensures GroupTokens(0, "Crore") == [] && GroupTokens(0, "Lakh") == []
    ensures GroupTokens(0, "Thousand") == [] && Tokens(0) == []
  {
  }

  lemma DropAround(g: seq<string>)
    ensures [] + g + [] + [] == g
  {
  }

  lemma DropTail(g: seq<string>)
    ensures g + [] + [] + [] == g
  {
  }

  lemma OneLakhText(u: string)
    requires u == "One"
    ensures u + " " + "Lakh" + " Rupees Only" == "One Lakh Rupees Only"
  {
  }

  lemma OneCroreWords(n: nat)
    requires n == Crore
    ensures NumberToWords(n) == Units[1] + " " + "Crore" + " Rupees Only"
  {
    OneCroreTokens(n);
    TwoWordAmount(n, Units[1], "Crore");
  }

  lemma OneCroreTokens(n: nat)
    requires n == Crore
    ensures AmountTokens(n) == [Units[1], "Crore"]
  {
    AmountTokensParts(n, 1, 0, 0, 0);
    TokensUnit(1);
    var g := GroupTokens(1, "Crore");
    assert g == [Units[1], "Crore"];
    EmptyGroups();
    DropTail(g);
  }

  lemma OneCroreText(u: string)
    requires u == "One"
    ensures u + " " + "Crore" + " Rupees Only" == "One Crore Rupees Only"
  {
  }

  lemma EightySix()
    ensures BelowThousand(86) == "Eighty Six"
  {
    assert Tens[8] == "Eighty" && Units[6] == "Six";
    assert BelowHundred(86) == "Eighty" + " " + "Six";
  }

  lemma SixHundredAndEightySix()
    ensures BelowThousand(686) == "Six Hundred and Eighty Six"
  {
    EightySix();
    HundredsWords(686);
    SixHundredText(Units[6], BelowThousand(86));
  }

  lemma SixHundredText(u: string, w: string)
    requires u == "Six" && w == "Eighty Six"
    ensures u + " Hundred" + (" and " + w) == "Six Hundred and Eighty Six"
  {
  }

  lemma RateTokens()
    ensures AmountTokens(8686) == [Units[8], "Thousand"] + Tokens(686)
  {
    SingleThousands(8686, 8, 686);
  }

  /** Two empty groups in front contribute nothing. */
  lemma DropEmpty(g: seq<string>, t: seq<string>)
    ensures [] + [] + g + t == g + t
  {
  }

  lemma RateJoin()
    ensures Join(AmountTokens(8686)) == "Eight Thousand Six Hundred and Eighty Six"
  {
    var g := [Units[8], "Thousand"];
    RateTokens();
    TokensAreWords(686);
    JoinAppend(g, Tokens(686));
    JoinPair(Units[8], "Thousand");
    BelowThousandMatchesTokens(686);
    SixHundredAndEightySix();
    RateText(Units[8], BelowThousand(686));
  }

  lemma RateWords(n: nat)
    requires n == 8686
    ensures NumberToWords(n) == "Eight Thousand Six Hundred and Eighty Six" + " Rupees Only"
  {
    NumberToWordsReference(n);
    RateJoin();
  }

  lemma RateText(e: string, w: string)
    requires e == "Eight" && w == "Six Hundred and Eighty Six"
    ensures e + " " + "Thousand" + " " + w == "Eight Thousand Six Hundred and Eighty Six"
  {
    EightThousand(e);
    RateWordsText(e + " " + "Thousand", w);
  }

  lemma EightThousand(e: string)
    requires e == "Eight"
    ensures e + " " + "Thousand" == "Eight Thousand"
  {
  }

  lemma RateWordsText(x: string, w: string)
    requires x == "Eight Thousand" && w == "Six Hundred and Eighty Six"
    ensures x + " " + w == "Eight Thousand Six Hundred and Eighty Six"
  {
  }

  lemma RateSuffix(w: string)
    requires w == "Eight Thousand Six Hundred and Eighty Six"
    ensures w + " Rupees Only" == "Eight Thousand Six Hundred and Eighty Six Rupees Only"
  {
  }

  /** The words of `Limit` are those of the crore multiplier 1000 and "Crore". */
  lemma LimitWords(n: nat)
    requires n == Limit
    ensures NumberToWords(n) == BelowThousand(1000) + " " + "Crore" + " Rupees Only"
  {
    var p := BelowThousand(1000) + " " + "Crore";
    LimitGroups(n);
    GroupNamesAreWords();
    WordIsPhrase("Crore");
    PhraseConcat(BelowThousand(1000), "Crore");
    WholeGroups(n, p);
  }

  /** The words accumulated for `Limit`: only the crore group, whose
      multiplier is 1000. */
  lemma LimitGroups(n: nat)
    requires n == Limit
    ensures Groups(n) == (BelowThousand(1000) + " " + "Crore" + " ", 0)
  {
    assert n / Crore == 1000 && n % Crore == 0;
    AddGroupTaken("", n, Crore, "Crore");
    assert "" + BelowThousand(1000) == BelowThousand(1000);
  }

  lemma AddGroupTaken(acc: string, n: nat, divisor: nat, name: string)
    requires 0 < divisor <= n
    ensures AddGroup(acc, n, divisor, name) == (acc + BelowThousand(n / divisor) + " " + name + " ", n % divisor)
  {
  }

  lemma LimitText(w: string)
    requires w == "undefined Hundred"
    ensures w + " " + "Crore" + " Rupees Only" == "undefined Hundred Crore Rupees Only"
  {
  }
}
