/**
 * The split / filter / normalize chain of `countWords` and the run join of
 * `extractTextFromDocx` (src/components/WordCount.tsx).
 */
module Tokenize {
  import opened Unicode

  /** No character of `w` is whitespace. */
  predicate SpaceFree(u: Tables, w: string)
  {
    forall k :: 0 <= k < |w| ==> !u.isSpace(w[k])
  }

  /** The end of the non-whitespace stretch of `s` that starts at `i`. */
  function WordEnd(u: Tables, s: string, i: nat): (j: nat)
    requires i <= |s|
    ensures i <= j <= |s|
    ensures forall k :: i <= k < j ==> !u.isSpace(s[k])
    ensures j < |s| ==> u.isSpace(s[j])
    decreases |s| - i
  {
    if i == |s| || u.isSpace(s[i]) then i else WordEnd(u, s, i + 1)
  }

  /** The end of the whitespace run of `s` that starts at `i` (the greedy match of `\s+`). */
  function SpaceEnd(u: Tables, s: string, i: nat): (j: nat)
    requires i <= |s|
    ensures i <= j <= |s|
    ensures forall k :: i <= k < j ==> u.isSpace(s[k])
    ensures j < |s| ==> !u.isSpace(s[j])
    decreases |s| - i
  {
    if i == |s| || !u.isSpace(s[i]) then i else SpaceEnd(u, s, i + 1)
  }

  /**
   * `s.split(/\s+/)`: the pieces between maximal whitespace runs. As in
   * JavaScript, leading or trailing whitespace yields an empty first or last
   * piece, and the empty string yields one empty piece.
   */
  function Split(u: Tables, s: string): (fs: seq<string>)
    ensures |fs| >= 1
    ensures forall i :: 0 <= i < |fs| ==> SpaceFree(u, fs[i])
    decreases |s|
  {
    var n := WordEnd(u, s, 0);
    if n == |s| then [s]
    else
      var m := SpaceEnd(u, s, n);
      assert m > n;
      [s[..n]] + Split(u, s[m..])
  }

  /** The characters of `s` that are not whitespace, in order. */
  function NonSpace(u: Tables, s: string): string
  {
    if s == [] then [] else (if u.isSpace(s[0]) then [] else [s[0]]) + NonSpace(u, s[1..])
  }

  function Concat(fs: seq<string>): string
  {
    if fs == [] then [] else fs[0] + Concat(fs[1..])
  }

  /** `.filter(word => /\p{L}/u.test(word))`: the fragments that hold a letter, in order. */
  function WithLetters(u: Tables, fs: seq<string>): (r: seq<string>)
    ensures |r| <= |fs|
    ensures forall i :: 0 <= i < |r| ==> HasLetter(u, r[i]) && r[i] in fs
    ensures forall i :: 0 <= i < |fs| && HasLetter(u, fs[i]) ==> fs[i] in r
  {
    if fs == [] then [] else (if HasLetter(u, fs[0]) then [fs[0]] else []) + WithLetters(u, fs[1..])
  }

  /** The `words` array of `countWords`: the letter-bearing fragments of `text`. */
  function Words(u: Tables, text: string): (ws: seq<string>)
    ensures |ws| <= |Split(u, text)|
    ensures forall i :: 0 <= i < |ws| ==> HasLetter(u, ws[i]) && SpaceFree(u, ws[i]) && ws[i] != []
  {
    WithLetters(u, Split(u, text))
  }

  /** The keys `countWords` counts, one per word, in text order. */
  function Tokens(u: Tables, text: string): (ts: seq<string>)
    ensures |ts| == |Words(u, text)|
    ensures forall i :: 0 <= i < |ts| ==> ts[i] == NormalizeWord(u, Words(u, text)[i])
  {
    var ws := Words(u, text);
    seq(|ws|, i requires 0 <= i < |ws| => NormalizeWord(u, ws[i]))
  }

  /** `runs.join(sep)`. */
  function Join(rs: seq<string>, sep: string): (s: string)
    ensures |rs| > 0 ==> rs[0] <= s
  {
    if |rs| == 0 then [] else if |rs| == 1 then rs[0] else rs[0] + sep + Join(rs[1..], sep)
  }

  // ---------------------------------------------------------------- lemmas

  lemma {:induction false} NonSpaceAppend(u: Tables, a: string, b: string)
    ensures NonSpace(u, a + b) == NonSpace(u, a) + NonSpace(u, b)
  {
    if a == [] {
      assert a + b == b;
    } else {
      assert (a + b)[0] == a[0];
      assert (a + b)[1..] == a[1..] + b;
      NonSpaceAppend(u, a[1..], b);
    }
  }

  lemma {:induction false} NonSpaceOfSpaceFree(u: Tables, w: string)
    requires SpaceFree(u, w)
    ensures NonSpace(u, w) == w
  {
    if w != [] {
      NonSpaceOfSpaceFree(u, w[1..]);
    }
  }

  lemma {:induction false} NonSpaceOfSpaces(u: Tables, w: string)
    requires forall k :: 0 <= k < |w| ==> u.isSpace(w[k])
    ensures NonSpace(u, w) == []
  {
    if w != [] {
      NonSpaceOfSpaces(u, w[1..]);
    }
  }

  /** One step of the split: the first fragment, then the split of what follows the first whitespace run. */
  lemma SplitStep(u: Tables, s: string)
    requires WordEnd(u, s, 0) < |s|
    ensures Split(u, s) == [s[..WordEnd(u, s, 0)]] + Split(u, s[SpaceEnd(u, s, WordEnd(u, s, 0))..])
  {
  }

  lemma ConcatCons(f: string, fs: seq<string>)
    ensures Concat([f] + fs) == f + Concat(fs)
  {
  }

  /** Over one split step, the non-whitespace characters are the first fragment followed by those of the rest. */
  lemma {:induction false} NonSpaceStep(u: Tables, s: string, n: nat, m: nat)
    requires n <= m <= |s|
    requires SpaceFree(u, s[..n])
    requires forall k :: n <= k < m ==> u.isSpace(s[k])
    ensures NonSpace(u, s) == s[..n] + NonSpace(u, s[m..])
  {
    var a, b, rest := s[..n], s[n..m], s[m..];
    assert s == a + b + rest;
    NonSpaceAppend(u, a + b, rest);
    NonSpaceAppend(u, a, b);
    NonSpaceOfSpaceFree(u, a);
    NonSpaceOfSpaces(u, b);
  }

  /** Splitting drops exactly the whitespace: the fragments, glued back, are the other characters of `s` in order. */
  lemma {:induction false} SplitKeepsNonSpace(u: Tables, s: string)
    ensures Concat(Split(u, s)) == NonSpace(u, s)
    decreases |s|
  {
    var n := WordEnd(u, s, 0);
    if n == |s| {
      NonSpaceOfSpaceFree(u, s);
      ConcatCons(s, []);
    } else {
      var m := SpaceEnd(u, s, n);
      SplitKeepsNonSpace(u, s[m..]);
      SplitStep(u, s);
      ConcatCons(s[..n], Split(u, s[m..]));
      NonSpaceStep(u, s, n, m);
    }
  }

  /** Every character of every fragment is a character of the text. */
  lemma {:induction false} FragmentCharInText(u: Tables, s: string, i: nat, k: nat)
    requires i < |Split(u, s)| && k < |Split(u, s)[i]|
    ensures Split(u, s)[i][k] in s
    decreases |s|
  {
    var n := WordEnd(u, s, 0);
    if n < |s| {
      var m := SpaceEnd(u, s, n);
      if i == 0 {
        assert Split(u, s)[0] == s[..n];
        assert s[..n][k] == s[k];
      } else {
        assert Split(u, s)[i] == Split(u, s[m..])[i - 1];
        FragmentCharInText(u, s[m..], i - 1, k);
        var c := Split(u, s[m..])[i - 1][k];
        var j :| 0 <= j < |s[m..]| && s[m..][j] == c;
        assert s[m + j] == c;
      }
    }
  }

  /** Filtering distributes over concatenation: each fragment is judged on its own, order is kept. */
  lemma {:induction false} WithLettersAppend(u: Tables, a: seq<string>, b: seq<string>)
    ensures WithLetters(u, a + b) == WithLetters(u, a) + WithLetters(u, b)
  {
    if a == [] {
      assert a + b == b;
    } else {
      assert (a + b)[0] == a[0];
      assert (a + b)[1..] == a[1..] + b;
      WithLettersAppend(u, a[1..], b);
    }
  }

  /** A fragment without a letter contributes nothing; one with a letter contributes itself, last. */
  lemma WithLettersSnoc(u: Tables, fs: seq<string>, f: string)
    ensures WithLetters(u, fs + [f]) == WithLetters(u, fs) + (if HasLetter(u, f) then [f] else [])
  {
    WithLettersAppend(u, fs, [f]);
    assert [f][1..] == [];
  }

  /** No fragment of `fs` holds a letter. */
  predicate NoLetterFragment(u: Tables, fs: seq<string>)
  {
    forall i :: 0 <= i < |fs| ==> !HasLetter(u, fs[i])
  }

  /** No words exactly when no fragment holds a letter (digits, punctuation and the empty boundary pieces are all dropped). */
  lemma WordsEmptyIff(u: Tables, text: string)
    ensures Words(u, text) == [] <==> NoLetterFragment(u, Split(u, text))
  {
    var fs, ws := Split(u, text), Words(u, text);
    if ws != [] {
      assert HasLetter(u, ws[0]) && ws[0] in fs;
      var i :| 0 <= i < |fs| && fs[i] == ws[0];
      assert !NoLetterFragment(u, fs) by {
        assert HasLetter(u, fs[i]);
      }
    } else {
      assert NoLetterFragment(u, fs);
    }
  }

  /** A text with no letter character at all has no words. */
  lemma {:induction false} NoLetterNoWords(u: Tables, text: string)
    requires forall k :: 0 <= k < |text| ==> !u.isLetter(text[k])
    ensures Words(u, text) == []
  {
    var fs := Split(u, text);
    forall i | 0 <= i < |fs|
      ensures !HasLetter(u, fs[i])
    {
      forall k | 0 <= k < |fs[i]|
        ensures !u.isLetter(fs[i][k])
      {
        FragmentCharInText(u, text, i, k);
      }
    }
    assert NoLetterFragment(u, fs);
    WordsEmptyIff(u, text);
  }

  /** The empty text splits into one empty fragment and so has no words. */
  lemma EmptyTextNoWords(u: Tables)
    ensures Split(u, []) == [[]]
    ensures Words(u, []) == []
  {
  }

  /**
   * Joining non-empty, whitespace-free runs with a single space and splitting
   * the result on whitespace gives the runs back.
   */
  lemma {:induction false} SplitJoin(u: Tables, rs: seq<string>)
    requires u.isSpace(' ')
    requires |rs| >= 1
    requires forall i :: 0 <= i < |rs| ==> rs[i] != [] && SpaceFree(u, rs[i])
    ensures Split(u, Join(rs, " ")) == rs
  {
    var s := Join(rs, " ");
    if |rs| == 1 {
      assert s == rs[0];
      assert WordEnd(u, s, 0) == |s|;
    } else {
      var r0 := rs[0];
      var tail := Join(rs[1..], " ");
      assert s == r0 + " " + tail;
      assert rs[1..][0] == rs[1];
      assert tail[0] == rs[1][0];
      var n := WordEnd(u, s, 0);
      assert n == |r0| by {
        assert s[|r0|] == ' ';
        assert forall k :: 0 <= k < |r0| ==> s[k] == r0[k];
      }
      var m := SpaceEnd(u, s, n);
      assert m == |r0| + 1 by {
        assert s[|r0| + 1] == tail[0];
      }
      assert s[..n] == r0;
      assert s[m..] == tail;
      SplitJoin(u, rs[1..]);
    }
  }

  // ------------------------------------------------ where the split cuts

  /** Every character of `g` is whitespace. */
  predicate AllSpace(u: Tables, g: string)
  {
    forall k :: 0 <= k < |g| ==> u.isSpace(g[k])
  }

  /** `WordEnd` is the only position that ends a whitespace-free stretch at whitespace or at the end. */
  lemma WordEndAt(u: Tables, s: string, i: nat, j: nat)
    requires i <= j <= |s|
    requires forall k :: i <= k < j ==> !u.isSpace(s[k])
    requires j < |s| ==> u.isSpace(s[j])
    ensures WordEnd(u, s, i) == j
  {
    var e := WordEnd(u, s, i);
    assert e < |s| ==> u.isSpace(s[e]);
  }

  /** `SpaceEnd` is the only position that ends a whitespace run at a non-whitespace character or at the end. */
  lemma SpaceEndAt(u: Tables, s: string, i: nat, j: nat)
    requires i <= j <= |s|
    requires forall k :: i <= k < j ==> u.isSpace(s[k])
    requires j < |s| ==> !u.isSpace(s[j])
    ensures SpaceEnd(u, s, i) == j
  {
    var e := SpaceEnd(u, s, i);
    assert e < |s| ==> !u.isSpace(s[e]);
  }

  /** A whitespace-free text is a single fragment, and it is a word exactly when it holds a letter. */
  lemma SplitSpaceFree(u: Tables, w: string)
    requires SpaceFree(u, w)
    ensures Split(u, w) == [w]
    ensures Words(u, w) == if HasLetter(u, w) then [w] else []
  {
    WordEndAt(u, w, 0, |w|);
  }

  /** Leading whitespace only adds an empty first fragment, which is never a word. */
  lemma {:induction false} WordsSkipSpace(u: Tables, b: string)
    ensures Words(u, b) == Words(u, b[SpaceEnd(u, b, 0)..])
  {
    var k := SpaceEnd(u, b, 0);
    if k == 0 {
      assert b[0..] == b;
    } else {
      WordEndAt(u, b, 0, 0);
      SplitStep(u, b);
      assert b[..0] == [];
      WithLettersAppend(u, [[]], Split(u, b[k..]));
      assert WithLetters(u, [[]]) == [];
    }
  }

  /**
   * A whitespace-free chunk followed by a non-empty whitespace run is cut
   * exactly at the run; the run, and any whitespace of `b` continuing it, is
   * dropped.
   */
  lemma {:induction false} SplitAtRun(u: Tables, x: string, g: string, b: string)
    requires SpaceFree(u, x)
    requires g != [] && AllSpace(u, g)
    ensures Split(u, x + g + b) == [x] + Split(u, b[SpaceEnd(u, b, 0)..])
  {
    var s := x + g + b;
    var kb := SpaceEnd(u, b, 0);
    var p, q := |x|, |x| + |g| + kb;
    assert WordEnd(u, s, 0) == p by {
      assert forall k :: 0 <= k < p ==> s[k] == x[k];
      assert s[p] == g[0];
      WordEndAt(u, s, 0, p);
    }
    assert SpaceEnd(u, s, p) == q by {
      assert forall k :: p <= k < p + |g| ==> s[k] == g[k - p];
      assert forall k :: p + |g| <= k < q ==> s[k] == b[k - p - |g|];
      assert q < |s| ==> s[q] == b[kb];
      SpaceEndAt(u, s, p, q);
    }
    SplitStep(u, s);
    assert s[..p] == x;
    assert s[q..] == b[kb..];
  }

  /** The words of a whitespace-free chunk, a whitespace run and `b`: the chunk if it holds a letter, then the words of `b`. */
  lemma WordsAtRun(u: Tables, x: string, g: string, b: string)
    requires SpaceFree(u, x)
    requires g != [] && AllSpace(u, g)
    ensures Words(u, x + g + b) == WithLetters(u, [x]) + Words(u, b)
  {
    SplitAtRun(u, x, g, b);
    WithLettersAppend(u, [x], Split(u, b[SpaceEnd(u, b, 0)..]));
    WordsSkipSpace(u, b);
  }

  /** A chunk whose trailing whitespace run `h` meets the gap: the two runs merge into one. */
  lemma WordsRunMeetsGap(u: Tables, x: string, h: string, g: string, b: string)
    requires SpaceFree(u, x)
    requires h != [] && AllSpace(u, h)
    requires g != [] && AllSpace(u, g)
    ensures Words(u, x + h + g + b) == Words(u, x + h) + Words(u, b)
  {
    assert Words(u, x + h) == WithLetters(u, [x]) by {
      assert x + h == x + h + [];
      WordsAtRun(u, x, h, []);
      EmptyTextNoWords(u);
    }
    assert x + h + g + b == x + (h + g) + b;
    WordsAtRun(u, x, h + g, b);
  }

  /** A chunk, a whitespace run, then a non-empty `rest` before the gap: the first chunk is cut off and `rest` carries the gap. */
  lemma WordsRunBeforeRest(u: Tables, x: string, h: string, rest: string, g: string, b: string)
    requires SpaceFree(u, x)
    requires h != [] && AllSpace(u, h)
    requires Words(u, rest + g + b) == Words(u, rest) + Words(u, b)
    ensures Words(u, x + h + rest + g + b) == Words(u, x + h + rest) + Words(u, b)
  {
    var t := rest + g + b;
    Regroup(x + h, rest, g, b);
    WordsAtRun(u, x, h, rest);
    WordsAtRun(u, x, h, t);
    var wx, wr, wb := WithLetters(u, [x]), Words(u, rest), Words(u, b);
    calc {
      Words(u, x + h + rest + g + b);
      Words(u, x + h + t);
      wx + (wr + wb);
      (wx + wr) + wb;
      Words(u, x + h + rest) + wb;
    }
  }

  lemma Regroup(p: string, r: string, g: string, b: string)
    ensures p + r + g + b == p + (r + g + b)
  {
  }

  /**
   * A whitespace gap separates words and never joins or cuts them: the words
   * of `a`, a non-empty whitespace run, then `b`, are the words of `a`
   * followed by those of `b`. Whitespace at the end of `a` or the start of `b`
   * merges with the gap.
   */
  lemma {:induction false} WordsAcrossGap(u: Tables, a: string, g: string, b: string)
    requires g != [] && AllSpace(u, g)
    ensures Words(u, a + g + b) == Words(u, a) + Words(u, b)
    decreases |a|
  {
    var n := WordEnd(u, a, 0);
    var x := a[..n];
    assert SpaceFree(u, x) by {
      assert forall k :: 0 <= k < n ==> x[k] == a[k];
    }
    if n == |a| {
      assert x == a;
      WordsAtRun(u, a, g, b);
      SplitSpaceFree(u, a);
    } else {
      var m := SpaceEnd(u, a, n);
      var h, rest := a[n..m], a[m..];
      assert AllSpace(u, h) by {
        assert forall k :: 0 <= k < |h| ==> h[k] == a[n + k];
      }
      if rest == [] {
        assert a == x + h;
        WordsRunMeetsGap(u, x, h, g, b);
      } else {
        assert a == x + h + rest;
        WordsAcrossGap(u, rest, g, b);
        WordsRunBeforeRest(u, x, h, rest, g, b);
      }
    }
  }

  /** Joining one more run appends the separator and that run. */
  lemma {:induction false} JoinSnoc(rs: seq<string>, r: string, sep: string)
    requires |rs| > 0
    ensures Join(rs + [r], sep) == Join(rs, sep) + sep + r
  {
    assert (rs + [r])[0] == rs[0];
    if |rs| == 1 {
      assert (rs + [r])[1..] == [r];
    } else {
      assert (rs + [r])[1..] == rs[1..] + [r];
      JoinSnoc(rs[1..], r, sep);
    }
  }

  /** The words of each run, run after run. */
  function RunWords(u: Tables, rs: seq<string>): seq<string>
  {
    if rs == [] then [] else Words(u, rs[0]) + RunWords(u, rs[1..])
  }

  /**
   * Joining runs with a single space neither merges nor cuts their words: the
   * words of the joined text are the words of the runs, in run order.
   */
  lemma {:induction false} WordsOfJoin(u: Tables, rs: seq<string>)
    requires u.isSpace(' ')
    ensures Words(u, Join(rs, " ")) == RunWords(u, rs)
  {
    if |rs| == 0 {
      EmptyTextNoWords(u);
    } else if |rs| == 1 {
      assert rs[1..] == [];
    } else {
      WordsAcrossGap(u, rs[0], " ", Join(rs[1..], " "));
      WordsOfJoin(u, rs[1..]);
    }
  }
}
