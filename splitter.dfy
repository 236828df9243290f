/**
 * split_text: cut the text into slices of len(text) // num_chunks
 * characters, stepping through it with range(0, len(text), chunk_size).
 */
module Splitter {
  import opened Wrappers

  /** The Python exceptions the pipeline can raise. */
  datatype Error =
    | ZeroDivisionError  // num_chunks == 0
    | ValueError         // range() with a step of 0, or a pool of no workers

  function Min(a: int, b: int): int
  {
    if a <= b then a else b
  }

  /**
   * Python's `a // b`, which rounds toward negative infinity (Dafny's `/`
   * is Euclidean, which differs when b is negative).
   */
  function FloorDiv(a: int, b: int): (q: int)
    requires b != 0
    ensures b > 0 ==> b * q <= a < b * q + b
    ensures b < 0 ==> b * q + b < a <= b * q
  {
    if b > 0 || a % b == 0 then a / b else a / b - 1
  }

  /** Concatenation of the slices, in order. */
  function Flatten(ss: seq<string>): string
  {
    if ss == [] then [] else ss[0] + Flatten(ss[1..])
  }

  lemma {:induction false} FlattenConcat(xs: seq<string>, ys: seq<string>)
    ensures Flatten(xs + ys) == Flatten(xs) + Flatten(ys)
  {
    if xs == [] {
      assert xs + ys == ys;
    } else {
      assert (xs + ys)[1..] == xs[1..] + ys;
      FlattenConcat(xs[1..], ys);
    }
  }

  /** Appending one piece puts it at the end of the concatenation. */
  lemma FlattenSnoc(xs: seq<string>, x: string)
    ensures Flatten(xs + [x]) == Flatten(xs) + x
  {
    FlattenConcat(xs, [x]);
    assert Flatten([x]) == x + Flatten([]);
  }

  /**
   * The list comprehension [text[i:i + size] for i in range(start, len(text), size)]
   * for a positive step; Python slicing stops at the end of the text.
   */
  function Slices(text: string, size: nat, start: nat): seq<string>
    requires size > 0
    decreases |text| - start
  {
    if start >= |text| then []
    else [text[start..Min(start + size, |text|)]] + Slices(text, size, start + size)
  }

  /** split_text(text, num_chunks). */
  function SplitText(text: string, n: int): Result<seq<string>, Error>
  {
    if n == 0 then Err(ZeroDivisionError)
    else
      var size := FloorDiv(|text|, n);
      if size == 0 then Err(ValueError)
      else if size < 0 then Ok([])  // range(0, len(text), size) is empty for a negative step
      else Ok(Slices(text, size, 0))
  }

  /** Adding one divisor to the dividend adds one to the quotient. */
  lemma DivPlusOne(x: int, s: int)
    requires s > 0
    ensures (x + s) / s == x / s + 1
  {
    var q, r := x / s, x % s;
    assert x == s * q + r;
    assert x + s == s * (q + 1) + r;
    DivUnique(x + s, s, q + 1, r);
  }

  /** The quotient is determined by any decomposition with a remainder in range. */
  lemma DivUnique(a: int, s: int, q: int, r: int)
    requires s > 0 && 0 <= r < s && a == s * q + r
    ensures a / s == q
  {
    var d := a / s - q;
    assert s * d == r - a % s by {
      assert a == s * (a / s) + a % s;
      assert s * (a / s) - s * q == s * d;
    }
    if d > 0 {
      MulAtLeast(s, d);
    }
  }

  lemma MulAtLeast(s: int, d: int)
    requires s > 0 && d >= 1
    ensures s * d >= s
  {
  }

  /** A dividend of at least n divisors has a quotient of at least n. */
  lemma {:induction false} DivAtLeast(x: int, s: int, n: nat)
    requires s > 0 && x >= n * s
    ensures x / s >= n
  {
    if n > 0 {
      assert x - s >= (n - 1) * s;
      DivAtLeast(x - s, s, n - 1);
      DivPlusOne(x - s, s);
    } else {
      assert x >= 0;
      assert x / s >= 0;
    }
  }

  /** The slices from `start` on concatenate back to the rest of the text. */
  lemma {:induction false} SlicesCover(text: string, size: nat, start: nat)
    requires size > 0 && start <= |text|
    ensures Flatten(Slices(text, size, start)) == text[start..]
    decreases |text| - start
  {
    if start < |text| {
      var end := Min(start + size, |text|);
      SlicesCover(text, size, end);
      if end < start + size {
        assert Slices(text, size, start + size) == [];
      }
      assert text[start..] == text[start..end] + text[end..];
    }
  }

  /**
   * Every slice but the last is exactly `size` long, the last holds the
   * remainder (between 1 and `size` characters, never merged into the one
   * before), and there are ceil((|text| - start) / size) of them.
   */
  lemma {:induction false} SlicesShape(text: string, size: nat, start: nat)
    requires size > 0 && start <= |text|
    ensures var ss := Slices(text, size, start);
      && |ss| == (|text| - start + size - 1) / size
      && (forall j :: 0 <= j < |ss| - 1 ==> |ss[j]| == size)
      && (ss != [] ==> 1 <= |ss[|ss| - 1]| <= size)
    decreases |text| - start
  {
    var ss := Slices(text, size, start);
    if start == |text| {
      DivUnique(size - 1, size, 0, size - 1);
    } else if start + size >= |text| {
      assert Slices(text, size, start + size) == [];
      DivUnique(|text| - start + size - 1, size, 1, |text| - start - 1);
    } else {
      SlicesShape(text, size, start + size);
      DivPlusOne(|text| - start - 1, size);
      assert ss == [text[start..start + size]] + Slices(text, size, start + size);
    }
  }

  /**
   * Slice j is text[start + j*size : start + (j+1)*size], cut short at the
   * end of the text: the list comprehension's element for i = start + j*size.
   */
  lemma {:induction false} SlicesAt(text: string, size: nat, start: nat, j: nat)
    requires size > 0 && j < |Slices(text, size, start)|
    ensures start + (j + 1) * size > start + j * size
    ensures start + j * size < |text|
    ensures Slices(text, size, start)[j] ==
      text[start + j * size..Min(start + (j + 1) * size, |text|)]
    decreases j
  {
    if j > 0 {
      SlicesAt(text, size, start + size, j - 1);
      assert start + size + (j - 1) * size == start + j * size;
      assert start + size + j * size == start + (j + 1) * size;
    }
  }

  /**
   * When split_text succeeds and when it raises: ZeroDivisionError for
   * num_chunks == 0; ValueError when the stride is 0, that is for an empty
   * text or for more chunks than characters; and for a negative num_chunks
   * on a non-empty text the stride is negative, so the result is empty.
   */
  lemma SplitTextOutcome(text: string, n: int)
    ensures SplitText(text, n).Ok? <==> 1 <= n <= |text| || (n < 0 && |text| > 0)
    ensures n == 0 ==> SplitText(text, n) == Err(ZeroDivisionError)
    ensures n != 0 && SplitText(text, n).Err? ==> SplitText(text, n) == Err(ValueError)
    ensures n < 0 && |text| > 0 ==> SplitText(text, n) == Ok([])
  {
    if n > 0 {
      var q := FloorDiv(|text|, n);
      if |text| >= n {
        DivAtLeast(|text|, n, 1);
      }
    } else if n < 0 {
      var q := FloorDiv(|text|, n);
      if |text| == 0 {
        assert q == 0;
      }
    }
  }

  /** For 1 <= num_chunks <= len(text) the stride len(text) // num_chunks is positive. */
  lemma SplitTextStride(text: string, n: int)
    requires 1 <= n <= |text|
    ensures |text| / n >= 1 && n * (|text| / n) <= |text|
    ensures SplitText(text, n) == Ok(Slices(text, |text| / n, 0))
  {
    DivAtLeast(|text|, n, 1);
  }

  /** For 1 <= num_chunks <= len(text) the slices concatenate back to the text. */
  lemma SplitTextCovers(text: string, n: int)
    requires 1 <= n <= |text|
    ensures SplitText(text, n).Ok? && Flatten(SplitText(text, n).value) == text
  {
    SplitTextStride(text, n);
    SlicesCover(text, |text| / n, 0);
  }

  /**
   * For 1 <= num_chunks <= len(text), with size = len(text) // num_chunks:
   * all slices but the last are `size` long, the last holds between 1 and
   * `size` characters, and there are ceil(len(text) / size) of them, which
   * is at least num_chunks and may be more.
   */
  lemma SplitTextSizes(text: string, n: int)
    requires 1 <= n <= |text|
    ensures SplitText(text, n).Ok?
    ensures var ss, size := SplitText(text, n).value, |text| / n;
      && size >= 1
      && |ss| == (|text| + size - 1) / size
      && |ss| >= n
      && (forall j :: 0 <= j < |ss| - 1 ==> |ss[j]| == size)
      && 1 <= |ss[|ss| - 1]| <= size
  {
    SplitTextStride(text, n);
    var size := |text| / n;
    SlicesShape(text, size, 0);
    DivAtLeast(|text| + size - 1, size, n);
  }

  /**
   * For 1 <= num_chunks <= len(text), slice j is
   * text[j * size : (j + 1) * size], cut short at the end of the text.
   */
  lemma SplitTextAt(text: string, n: int, j: nat)
    requires 1 <= n <= |text|
    ensures SplitText(text, n).Ok?
    ensures var ss, size := SplitText(text, n).value, |text| / n;
      j < |ss| ==> j * size < |text| && ss[j] == text[j * size..Min((j + 1) * size, |text|)]
  {
    SplitTextStride(text, n);
    if j < |SplitText(text, n).value| {
      SlicesAt(text, |text| / n, 0, j);
    }
  }

  /** With one chunk the whole text is the only slice. */
  lemma SplitTextOne(text: string)
    requires text != []
    ensures SplitText(text, 1) == Ok([text])
  {
    assert FloorDiv(|text|, 1) == |text|;
    assert SplitText(text, 1) == Ok(Slices(text, |text|, 0));
    assert Min(|text|, |text|) == |text|;
    assert Slices(text, |text|, |text|) == [];
    assert Slices(text, |text|, 0) == [text[0..|text|]] + Slices(text, |text|, |text|);
    assert text[0..|text|] == text;
    assert [text[0..|text|]] + Slices(text, |text|, |text|) == [text];
  }
}
