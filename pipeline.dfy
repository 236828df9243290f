/**
 * analyze_word_frequencies: split the text, count every slice on a thread
 * pool, and merge the counts. executor.map returns its results in input
 * order and map_function is pure, so the pool is an ordered sequential map.
 */
module WordFrequency {
  import opened Wrappers
  import opened Counters
  import opened Tokenizer
  import opened Splitter
  import opened Reducer

  /** list(executor.map(map_function, chunks)): one table per chunk, in chunk order. */
  function MapAll(chunks: seq<string>): (ms: seq<Counter>)
    ensures |ms| == |chunks|
    ensures forall i :: 0 <= i < |chunks| ==> ms[i] == MapFunction(chunks[i])
  {
    seq(|chunks|, i requires 0 <= i < |chunks| => MapFunction(chunks[i]))
  }

  /**
   * The value analyze_word_frequencies(text, num_threads) returns or the
   * exception it raises. split_text runs first; ThreadPoolExecutor then
   * raises ValueError for max_workers <= 0.
   */
  function WordFrequencies(text: string, n: int := 4): Result<Counter, Error>
  {
    match SplitText(text, n)
    case Err(e) => Err(e)
    case Ok(chunks) => if n <= 0 then Err(ValueError) else Ok(SumAll(MapAll(chunks)))
  }

  /** analyze_word_frequencies(text, num_threads). */
  method AnalyzeWordFrequencies(text: string, n: int := 4) returns (r: Result<Counter, Error>)
    ensures r == WordFrequencies(text, n)
    ensures r.Ok? <==> 1 <= n <= |text|
    ensures n == 0 ==> r == Err(ZeroDivisionError)
    ensures n != 0 && r.Err? ==> r == Err(ValueError)
  {
    SplitTextOutcome(text, n);
    var chunks := SplitText(text, n);
    if chunks.Err? {
      return Err(chunks.error);
    }
    if n <= 0 {
      return Err(ValueError);
    }
    var mapped := MapAll(chunks.value);
    var total := ReduceFunction(mapped);
    r := Ok(total);
  }

  /** How often w occurs as a token over all chunks. */
  function Occurrences(chunks: seq<string>, w: string): nat
  {
    if chunks == [] then 0
    else multiset(Tokens(LowerStr(chunks[0])))[w] + Occurrences(chunks[1..], w)
  }

  /** The number of tokens over all chunks. */
  function TokenCount(chunks: seq<string>): nat
  {
    if chunks == [] then 0 else |Tokens(LowerStr(chunks[0]))| + TokenCount(chunks[1..])
  }

  lemma {:induction false} CountInMapAll(chunks: seq<string>, w: string)
    ensures CountIn(MapAll(chunks), w) == Occurrences(chunks, w)
  {
    if chunks != [] {
      assert MapAll(chunks)[1..] == MapAll(chunks[1..]);
      CountInMapAll(chunks[1..], w);
      MapFunctionCounts(chunks[0]);
    }
  }

  lemma {:induction false} TotalInMapAll(chunks: seq<string>)
    ensures TotalIn(MapAll(chunks)) == TokenCount(chunks)
  {
    if chunks != [] {
      assert MapAll(chunks)[1..] == MapAll(chunks[1..]);
      TotalInMapAll(chunks[1..]);
      MapFunctionTotal(chunks[0]);
    }
  }

  /** A word is a key of the merged table exactly when it is a token of some chunk. */
  lemma SumAllMapAllKeys(chunks: seq<string>, w: string)
    ensures w in SumAll(MapAll(chunks)) <==>
      exists i :: 0 <= i < |chunks| && w in Tokens(LowerStr(chunks[i]))
  {
    var ms := MapAll(chunks);
    SumAllKeys(ms, w);
    if exists i :: 0 <= i < |ms| && w in ms[i] {
      var i :| 0 <= i < |ms| && w in ms[i];
      MapFunctionCounts(chunks[i]);
    }
    if exists i :: 0 <= i < |chunks| && w in Tokens(LowerStr(chunks[i])) {
      var i :| 0 <= i < |chunks| && w in Tokens(LowerStr(chunks[i]));
      MapFunctionCounts(chunks[i]);
      assert w in ms[i];
    }
  }

  /**
   * The merged table counts every word as often as it occurs as a token of
   * some slice, its keys are those tokens, and its counts add up to the
   * number of tokens over all slices.
   */
  lemma WordFrequenciesCounts(text: string, n: int)
    requires 1 <= n <= |text|
    ensures SplitText(text, n).Ok? && WordFrequencies(text, n).Ok?
    ensures var chunks, r := SplitText(text, n).value, WordFrequencies(text, n).value;
      && (forall w :: Get(r, w) == Occurrences(chunks, w))
      && (forall w :: w in r <==> exists i :: 0 <= i < |chunks| && w in Tokens(LowerStr(chunks[i])))
      && Total(r) == TokenCount(chunks)
  {
    SplitTextOutcome(text, n);
    var chunks := SplitText(text, n).value;
    var ms := MapAll(chunks);
    forall w
      ensures Get(SumAll(ms), w) == Occurrences(chunks, w)
      ensures w in SumAll(ms) <==> exists i :: 0 <= i < |chunks| && w in Tokens(LowerStr(chunks[i]))
    {
      SumAllAt(ms, w);
      CountInMapAll(chunks, w);
      SumAllMapAllKeys(chunks, w);
    }
    TotalSumAll(ms);
    TotalInMapAll(chunks);
  }

  /** With one thread the result is map_function of the whole text. */
  lemma WordFrequenciesOne(text: string)
    requires text != []
    ensures WordFrequencies(text, 1) == Ok(MapFunction(text))
  {
    SplitTextOne(text);
    var m := MapFunction(text);
    assert MapAll([text]) == [m];
    assert SumAll([m]) == Add(SumAll([]), m);
    assert Add(map[], m) == m;
  }

  /** No cut between two consecutive chunks falls inside a word. */
  predicate CleanCuts(chunks: seq<string>)
  {
    forall j :: 0 < j < |chunks| ==> CleanCut(chunks[j - 1], chunks[j])
  }

  /** The last character of a concatenation of non-empty chunks is that of the last chunk. */
  lemma FlattenLastChar(chunks: seq<string>)
    requires chunks != [] && chunks[|chunks| - 1] != []
    ensures var f, c := Flatten(chunks), chunks[|chunks| - 1];
      f != [] && f[|f| - 1] == c[|c| - 1]
  {
    var k := |chunks|;
    assert chunks == chunks[..k - 1] + [chunks[k - 1]];
    FlattenSnoc(chunks[..k - 1], chunks[k - 1]);
  }

  /** Merging the tables of one more chunk adds that chunk's table. */
  lemma SumAllMapAllUnfold(init: seq<string>, last: string)
    ensures SumAll(MapAll(init + [last])) == Add(SumAll(MapAll(init)), MapFunction(last))
  {
    var ms := MapAll(init + [last]);
    assert ms[..|init|] == MapAll(init);
  }

  /** One more chunk, cut cleanly from those before it, keeps merging equal to counting the whole. */
  lemma SumAllMapAllSnoc(init: seq<string>, last: string)
    requires init != [] ==> init[|init| - 1] != [] && CleanCut(init[|init| - 1], last)
    requires SumAll(MapAll(init)) == MapFunction(Flatten(init))
    ensures SumAll(MapAll(init + [last])) == MapFunction(Flatten(init + [last]))
  {
    SumAllMapAllUnfold(init, last);
    FlattenSnoc(init, last);
    if init != [] {
      FlattenLastChar(init);
    }
    MapFunctionConcat(Flatten(init), last);
  }

  /** Counting chunks cut only between words and merging is counting their concatenation. */
  lemma {:induction false} SumAllMapAllFlatten(chunks: seq<string>)
    requires forall i :: 0 <= i < |chunks| ==> chunks[i] != []
    requires CleanCuts(chunks)
    ensures SumAll(MapAll(chunks)) == MapFunction(Flatten(chunks))
  {
    if chunks == [] {
      assert MapFunction([]) == map[] by {
        assert LowerStr([]) == [];
      }
    } else {
      var k := |chunks|;
      var init := chunks[..k - 1];
      SumAllMapAllFlatten(init);
      if k > 1 {
        assert CleanCut(chunks[k - 2], chunks[k - 1]);
      }
      SumAllMapAllSnoc(init, chunks[k - 1]);
      assert chunks == init + [chunks[k - 1]];
    }
  }

  /**
   * When no slice boundary falls inside a word, the result does not depend
   * on the number of threads: it is what one thread gives.
   */
  lemma WordFrequenciesCleanCuts(text: string, n: int)
    requires 1 <= n <= |text|
    requires CleanCuts(SplitText(text, n).value)
    ensures WordFrequencies(text, n) == WordFrequencies(text, 1)
  {
    SplitTextCovers(text, n);
    SplitTextSizes(text, n);
    var chunks := SplitText(text, n).value;
    SumAllMapAllFlatten(chunks);
    WordFrequenciesOne(text);
  }

  /** A run of lower-case letters is counted once, as itself. */
  lemma LowerWordCount(w: string)
    requires w != [] && forall i :: 0 <= i < |w| ==> 'a' <= w[i] <= 'z'
    ensures MapFunction(w) == map[w := 1]
  {
    assert IsWord(w) && NoUpper(w);
    assert LowerStr(w) == w;
    TokensOfWord(w);
    assert CounterOf([w]) == Increment(CounterOf([]), w);
  }

  lemma SplitHello()
    ensures SplitText("hello", 2) == Ok(["he", "ll", "o"])
  {
    var text := "hello";
    SplitTextSizes(text, 2);
    SplitTextAt(text, 2, 0);
    SplitTextAt(text, 2, 1);
    SplitTextAt(text, 2, 2);
    var ss := SplitText(text, 2).value;
    assert |text| / 2 == 2;
    assert |ss| == 3;
    assert ss[0] == text[0..2] && ss[1] == text[2..4] && ss[2] == text[4..5];
    assert text[0..2] == "he" && text[2..4] == "ll" && text[4..5] == "o";
    assert ss == [ss[0], ss[1], ss[2]];
  }

  /** Three lower-case words, one per chunk, are counted once each. */
  lemma MapThreeWords(x: string, y: string, z: string)
    requires x != [] && forall i :: 0 <= i < |x| ==> 'a' <= x[i] <= 'z'
    requires y != [] && forall i :: 0 <= i < |y| ==> 'a' <= y[i] <= 'z'
    requires z != [] && forall i :: 0 <= i < |z| ==> 'a' <= z[i] <= 'z'
    ensures MapAll([x, y, z]) == [map[x := 1], map[y := 1], map[z := 1]]
  {
    LowerWordCount(x);
    LowerWordCount(y);
    LowerWordCount(z);
  }

  lemma MapHello()
    ensures MapAll(["he", "ll", "o"]) == [map["he" := 1], map["ll" := 1], map["o" := 1]]
  {
    MapThreeWords("he", "ll", "o");
  }

  lemma MergeHello()
    ensures SumAll(MapAll(["he", "ll", "o"])) == map["he" := 1, "ll" := 1, "o" := 1]
  {
    MapHello();
    var ms: seq<Counter> := [map["he" := 1], map["ll" := 1], map["o" := 1]];
    assert ms[..2][..1] == [map["he" := 1]];
    AddEmpty(map["he" := 1]);
    assert SumAll(ms[..2][..1]) == map["he" := 1];
    AddNewWord(map["he" := 1], "ll", 1);
    assert SumAll(ms[..2]) == map["he" := 1, "ll" := 1];
    AddNewWord(map["he" := 1, "ll" := 1], "o", 1);
  }

  /** On one thread "hello" is one word. */
  lemma HelloOnOneThread()
    ensures WordFrequencies("hello", 1) == Ok(map["hello" := 1])
  {
    LowerWordCount("hello");
    WordFrequenciesOne("hello");
  }

  /**
   * The result depends on the number of threads when a cut falls inside a
   * word: on two threads "hello" is sliced into "he", "ll" and "o", each
   * counted as a word, where one thread counts "hello" once.
   */
  lemma HelloOnTwoThreads()
    ensures SplitText("hello", 2) == Ok(["he", "ll", "o"])
    ensures WordFrequencies("hello", 2) == Ok(map["he" := 1, "ll" := 1, "o" := 1])
    ensures WordFrequencies("hello", 2) != WordFrequencies("hello", 1)
  {
    SplitHello();
    MergeHello();
    HelloOnOneThread();
    assert "he" !in map["hello" := 1];
  }
}
