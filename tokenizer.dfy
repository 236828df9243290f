/**
 * map_function: lower-case a chunk and count the maximal runs of word
 * characters in it (the matches of the regular expression \b\w+\b).
 * Word characters and lower-casing are taken over ASCII.
 */
module Tokenizer {
  import opened Counters

  /** \w restricted to ASCII: letters, digits and the underscore. */
  predicate IsWordChar(c: char)
  {
    'a' <= c <= 'z' || 'A' <= c <= 'Z' || '0' <= c <= '9' || c == '_'
  }

  /** str.lower() on one ASCII character. */
  function Lower(c: char): (d: char)
    ensures IsWordChar(d) <==> IsWordChar(c)
    ensures !('A' <= d <= 'Z')
    ensures !('A' <= c <= 'Z') ==> d == c
    ensures 'A' <= c <= 'Z' ==> d == "abcdefghijklmnopqrstuvwxyz"[c as int - 'A' as int]
  {
    if 'A' <= c <= 'Z' then (c as int - 'A' as int + 'a' as int) as char else c
  }

  /** str.lower() on a whole chunk, character by character. */
  function LowerStr(s: string): (r: string)
    ensures |r| == |s|
    ensures forall i :: 0 <= i < |s| ==> r[i] == Lower(s[i])
  {
    seq(|s|, i requires 0 <= i < |s| => Lower(s[i]))
  }

  predicate AllWordChars(s: string)
  {
    forall i :: 0 <= i < |s| ==> IsWordChar(s[i])
  }

  predicate NoWordChars(s: string)
  {
    forall i :: 0 <= i < |s| ==> !IsWordChar(s[i])
  }

  /** The length of the run of word characters that starts the string; the run is maximal. */
  function RunLength(s: string): (k: nat)
    ensures k <= |s|
    ensures AllWordChars(s[..k])
    ensures k < |s| ==> !IsWordChar(s[k])
  {
    if s == [] || !IsWordChar(s[0]) then 0
    else 1 + RunLength(s[1..])
  }

  /** What the tokenizer can yield: a non-empty run of word characters. */
  predicate IsWord(t: string)
  {
    t != [] && AllWordChars(t)
  }

  /** No upper-case ASCII letter. */
  predicate NoUpper(s: string)
  {
    forall i :: 0 <= i < |s| ==> !('A' <= s[i] <= 'Z')
  }

  /**
   * re.findall(r'\b\w+\b', s): the maximal runs of word characters, left to
   * right.
   */
  function Tokens(s: string): seq<string>
    decreases |s|
  {
    if s == [] then []
    else if !IsWordChar(s[0]) then Tokens(s[1..])
    else
      var k := RunLength(s);
      [s[..k]] + Tokens(s[k..])
  }

  /** Every token is a non-empty run of word characters. */
  lemma {:induction false} TokensAreWords(s: string)
    ensures forall t :: t in Tokens(s) ==> IsWord(t)
    decreases |s|
  {
    if s != [] {
      if !IsWordChar(s[0]) {
        TokensAreWords(s[1..]);
      } else {
        TokensAreWords(s[RunLength(s)..]);
      }
    }
  }

  /** Tokens are cut out of their text, so a text without capitals yields none. */
  lemma {:induction false} TokensNoUpper(s: string)
    requires NoUpper(s)
    ensures forall t :: t in Tokens(s) ==> NoUpper(t)
    decreases |s|
  {
    if s != [] {
      if !IsWordChar(s[0]) {
        assert NoUpper(s[1..]) by { assert forall i :: 0 <= i < |s| - 1 ==> s[1..][i] == s[i + 1]; }
        TokensNoUpper(s[1..]);
      } else {
        var k := RunLength(s);
        assert NoUpper(s[k..]) by { assert forall i :: 0 <= i < |s| - k ==> s[k..][i] == s[i + k]; }
        assert NoUpper(s[..k]) by { assert forall i :: 0 <= i < k ==> s[..k][i] == s[i]; }
        TokensNoUpper(s[k..]);
      }
    }
  }

  /** map_function(chunk) = Counter(re.findall(r'\b\w+\b', chunk.lower())). */
  function MapFunction(chunk: string): Counter
  {
    CounterOf(Tokens(LowerStr(chunk)))
  }

  /**
   * The keys of map_function(chunk) are exactly the tokens of the lower-cased
   * chunk, each counted as often as it occurs; every count is at least 1 and
   * every key is a word without capitals.
   */
  lemma MapFunctionCounts(chunk: string)
    ensures var r, ts := MapFunction(chunk), Tokens(LowerStr(chunk));
      && (forall w :: w in r <==> w in ts)
      && (forall w :: Get(r, w) == multiset(ts)[w])
      && (forall w :: w in r ==> r[w] >= 1 && IsWord(w) && NoUpper(w))
  {
    TokensAreWords(LowerStr(chunk));
    TokensNoUpper(LowerStr(chunk));
  }

  /** A chunk yields no token exactly when it holds no word character. */
  lemma {:induction false} TokensEmptyIff(s: string)
    ensures Tokens(s) == [] <==> NoWordChars(s)
    decreases |s|
  {
    if s != [] && !IsWordChar(s[0]) {
      TokensEmptyIff(s[1..]);
      assert forall i :: 1 <= i < |s| ==> s[1..][i - 1] == s[i];
    }
  }

  /** A string made only of word characters is one token. */
  lemma TokensOfWord(w: string)
    requires w != [] && AllWordChars(w)
    ensures Tokens(w) == [w]
  {
    assert RunLength(w) == |w|;
    assert w[..|w|] == w && w[|w|..] == [];
    assert Tokens(w) == [w[..|w|]] + Tokens(w[|w|..]);
  }

  /** The leading run of a concatenation reaches into b only when it spans all of a. */
  lemma {:induction false} RunLengthConcat(a: string, b: string)
    ensures RunLength(a + b) == if RunLength(a) < |a| then RunLength(a) else |a| + RunLength(b)
    decreases |a|
  {
    if a == [] {
      assert a + b == b;
    } else if IsWordChar(a[0]) {
      assert (a + b)[1..] == a[1..] + b;
      RunLengthConcat(a[1..], b);
    }
  }

  /** The cut between a and b does not fall inside a word. */
  predicate CleanCut(a: string, b: string)
  {
    a == [] || b == [] || !IsWordChar(a[|a| - 1]) || !IsWordChar(b[0])
  }

  /** A word followed by text that starts with a word character fuses with its first token. */
  lemma TokensWordThenWord(a: string, b: string)
    requires IsWord(a) && b != [] && IsWordChar(b[0])
    ensures Tokens(b) != []
    ensures Tokens(a + b) == [a + Tokens(b)[0]] + Tokens(b)[1..]
  {
    var m := RunLength(b);
    assert Tokens(b) == [b[..m]] + Tokens(b[m..]);
    assert a[..|a|] == a;
    RunLengthConcat(a, b);
    assert (a + b)[..|a| + m] == a + b[..m];
    assert (a + b)[|a| + m..] == b[m..];
  }

  /** A run of word characters that ends inside a is a token of a + b on its own. */
  lemma TokensLeadingRun(a: string, b: string)
    requires a != [] && IsWordChar(a[0]) && RunLength(a) < |a|
    ensures Tokens(a + b) == [a[..RunLength(a)]] + Tokens(a[RunLength(a)..] + b)
    ensures Tokens(a) == [a[..RunLength(a)]] + Tokens(a[RunLength(a)..])
  {
    var k := RunLength(a);
    RunLengthConcat(a, b);
    assert (a + b)[..k] == a[..k];
    assert (a + b)[k..] == a[k..] + b;
  }

  /** A leading separator is dropped, whatever follows. */
  lemma TokensSkip(a: string, b: string)
    requires a != [] && !IsWordChar(a[0])
    ensures Tokens(a + b) == Tokens(a[1..] + b)
  {
    assert (a + b)[1..] == a[1..] + b;
  }

  /** A word followed by a separator (or by nothing) is a token of its own. */
  lemma TokensWordThenSeparator(a: string, b: string)
    requires IsWord(a) && (b == [] || !IsWordChar(b[0]))
    ensures Tokens(a + b) == [a] + Tokens(b)
  {
    assert a[..|a|] == a;
    RunLengthConcat(a, b);
    assert (a + b)[..|a|] == a;
    assert (a + b)[|a|..] == b;
  }

  /** Cutting a text where no word is broken tokenizes the pieces independently. */
  lemma {:induction false} TokensConcat(a: string, b: string)
    requires CleanCut(a, b)
    ensures Tokens(a + b) == Tokens(a) + Tokens(b)
    decreases |a|
  {
    if a == [] {
      assert a + b == b;
    } else if !IsWordChar(a[0]) {
      assert Tokens(a + b) == Tokens(a) + Tokens(b) by {
        TokensSkip(a, b);
        TokensConcat(a[1..], b);
      }
    } else if RunLength(a) < |a| {
      assert Tokens(a + b) == Tokens(a) + Tokens(b) by {
        TokensLeadingRun(a, b);
        TokensConcat(a[RunLength(a)..], b);
      }
    } else {
      assert Tokens(a + b) == Tokens(a) + Tokens(b) by {
        assert a[..|a|] == a;
        TokensOfWord(a);
        TokensWordThenSeparator(a, b);
      }
    }
  }

  /**
   * The tokens of two texts when the last token of the first and the first
   * token of the second are glued into one.
   */
  function Fuse(ta: seq<string>, tb: seq<string>): (r: seq<string>)
    requires ta != [] && tb != []
    ensures |r| == |ta| + |tb| - 1
  {
    ta[..|ta| - 1] + [ta[|ta| - 1] + tb[0]] + tb[1..]
  }

  lemma FuseCons(x: string, ta: seq<string>, tb: seq<string>)
    requires ta != [] && tb != []
    ensures Fuse([x] + ta, tb) == [x] + Fuse(ta, tb)
  {
    assert ([x] + ta)[..|ta|] == [x] + ta[..|ta| - 1];
  }

  /** The step of TokensSplitWord past a leading separator. */
  lemma SplitWordAfterSkip(a: string, b: string)
    requires a != [] && !IsWordChar(a[0]) && b != []
    requires Tokens(a[1..]) != [] && Tokens(b) != []
    requires Tokens(a[1..] + b) == Fuse(Tokens(a[1..]), Tokens(b))
    ensures Tokens(a) != [] && Tokens(a + b) == Fuse(Tokens(a), Tokens(b))
  {
    TokensSkip(a, b);
  }

  /** The last step of TokensSplitWord, where a is one word. */
  lemma SplitWordWhole(a: string, b: string)
    requires IsWord(a) && b != [] && IsWordChar(b[0])
    ensures Tokens(a) != [] && Tokens(b) != []
    ensures Tokens(a + b) == Fuse(Tokens(a), Tokens(b))
  {
    TokensOfWord(a);
    TokensWordThenWord(a, b);
    var tb := Tokens(b);
    assert Fuse([a], tb) == [a + tb[0]] + tb[1..];
  }

  /** The step of TokensSplitWord past a leading run that ends inside a. */
  lemma SplitWordAfterRun(a: string, b: string)
    requires a != [] && IsWordChar(a[0]) && RunLength(a) < |a| && b != []
    requires Tokens(a[RunLength(a)..]) != [] && Tokens(b) != []
    requires Tokens(a[RunLength(a)..] + b) == Fuse(Tokens(a[RunLength(a)..]), Tokens(b))
    ensures Tokens(a) != [] && Tokens(a + b) == Fuse(Tokens(a), Tokens(b))
  {
    var k := RunLength(a);
    TokensLeadingRun(a, b);
    FuseCons(a[..k], Tokens(a[k..]), Tokens(b));
  }

  /**
   * Cutting a text inside a word breaks that word in two: the last token of a
   * and the first token of b are what the whole text has as one token.
   */
  lemma {:induction false} TokensSplitWord(a: string, b: string)
    requires a != [] && b != [] && IsWordChar(a[|a| - 1]) && IsWordChar(b[0])
    ensures Tokens(a) != [] && Tokens(b) != []
    ensures Tokens(a + b) == Fuse(Tokens(a), Tokens(b))
    decreases |a|
  {
    if !IsWordChar(a[0]) {
      TokensSplitWord(a[1..], b);
      SplitWordAfterSkip(a, b);
    } else if RunLength(a) < |a| {
      TokensSplitWord(a[RunLength(a)..], b);
      SplitWordAfterRun(a, b);
    } else {
      assert a[..|a|] == a;
      SplitWordWhole(a, b);
    }
  }

  /** Lower-casing works character by character, so it commutes with cutting. */
  lemma LowerStrConcat(a: string, b: string)
    ensures LowerStr(a + b) == LowerStr(a) + LowerStr(b)
  {
  }

  /** The counts of one chunk add up to its number of tokens. */
  lemma MapFunctionTotal(chunk: string)
    ensures Total(MapFunction(chunk)) == |Tokens(LowerStr(chunk))|
  {
    TotalCounterOf(Tokens(LowerStr(chunk)));
  }

  /** A chunk without word characters gives an empty table, and only such a chunk does. */
  lemma MapFunctionEmpty(chunk: string)
    ensures MapFunction(chunk) == map[] <==> NoWordChars(chunk)
  {
    var s := LowerStr(chunk);
    TokensEmptyIff(s);
    assert NoWordChars(s) <==> NoWordChars(chunk) by {
      assert forall i :: 0 <= i < |s| ==> (IsWordChar(s[i]) <==> IsWordChar(chunk[i]));
    }
    var ts := Tokens(s);
    if ts != [] {
      assert ts[0] in MapFunction(chunk);
    }
  }

  /** Counting two chunks cut between words and merging is counting their concatenation. */
  lemma MapFunctionConcat(a: string, b: string)
    requires CleanCut(a, b)
    ensures MapFunction(a + b) == Add(MapFunction(a), MapFunction(b))
  {
    LowerStrConcat(a, b);
    var la, lb := LowerStr(a), LowerStr(b);
    assert CleanCut(la, lb);
    TokensConcat(la, lb);
    CounterOfConcat(Tokens(la), Tokens(lb));
  }

  /** Lower-casing a mixed-case chunk with separators. */
  lemma LowerMixedCase()
    ensures LowerStr("The cat. the") == "the cat. the"
  {
    var s := LowerStr("The cat. the");
    assert Lower('T') == 't';
    assert forall i :: 1 <= i < 12 ==> s[i] == "the cat. the"[i];
  }

  /** A word, then one separator, then the rest: the word is a token of its own. */
  lemma TokensWordSeparator(w: string, c: char, rest: string)
    requires IsWord(w) && !IsWordChar(c)
    ensures Tokens(w + ([c] + rest)) == [w] + Tokens(rest)
  {
    TokensWordThenSeparator(w, [c] + rest);
    TokensSkip([c], rest);
    assert [c] + rest == [c] + rest;
  }

  /** Two separators before a word leave just the word. */
  lemma TokensTwoSeparators(d: char, e: char, z: string)
    requires IsWord(z) && !IsWordChar(d) && !IsWordChar(e)
    ensures Tokens([d, e] + z) == [z]
  {
    TokensOfWord(z);
    TokensSkip([e], z);
    assert [d, e] + z == [d] + ([e] + z);
    TokensSkip([d], [e] + z);
  }

  /** Three words with separators between them are three tokens. */
  lemma TokensThreeWords(x: string, c: char, y: string, d: char, e: char, z: string)
    requires IsWord(x) && IsWord(y) && IsWord(z)
    requires !IsWordChar(c) && !IsWordChar(d) && !IsWordChar(e)
    ensures Tokens(x + ([c] + (y + ([d, e] + z)))) == [x, y, z]
  {
    TokensTwoSeparators(d, e, z);
    TokensWordThenSeparator(y, [d, e] + z);
    TokensWordSeparator(x, c, y + ([d, e] + z));
  }

  /** Counting two words, the first of them twice. */
  lemma CounterOfRepeat(x: string, y: string)
    requires x != y
    ensures CounterOf([x, y, x]) == map[x := 2, y := 1]
  {
    var ts := [x, y, x];
    var r := CounterOf(ts);
    assert multiset(ts)[x] == 2 && multiset(ts)[y] == 1;
    assert r.Keys == {x, y};
  }

  /**
   * Capitals are folded before counting: "The" and "the" are one word, and
   * punctuation and spaces only separate words.
   */
  lemma MapFunctionMixedCase()
    ensures MapFunction("The cat. the") == map["the" := 2, "cat" := 1]
  {
    LowerMixedCase();
    assert "the cat. the" == "the" + ([' '] + ("cat" + (['.', ' '] + "the")));
    TokensThreeWords("the", ' ', "cat", '.', ' ', "the");
    CounterOfRepeat("the", "cat");
  }
}
