/**
 * The frequency record built by `countWords` and summed by `getTotalWords`
 * (src/components/WordCount.tsx).
 *
 * Every key holds a letter, so no key is an array index and JavaScript
 * enumerates the record's keys in insertion order. The record is therefore
 * modelled as an association list in enumeration order. `Bump` gives every
 * key the ordinary record semantics. The two inherited property names that
 * can be keys, "__proto__" and "constructor" (every other name a plain object
 * inherits has an upper-case letter, and keys are lower-cased), depart from it
 * in JavaScript;
 * `BumpAsWritten` below models how, and `TallyAsWrittenAgrees` shows that no
 * other key does.
 */
module WordCounts {
  import opened Unicode
  import opened Tokenize

  /** One `[word, count]` pair of `Object.entries(wordCounts)`. */
  datatype Entry = Entry(word: string, count: nat)

  /** The keys of the record, in enumeration order. */
  function Keys(es: seq<Entry>): (ks: seq<string>)
    ensures |ks| == |es|
    ensures forall i :: 0 <= i < |es| ==> ks[i] == es[i].word
  {
    if es == [] then [] else [es[0].word] + Keys(es[1..])
  }

  predicate NoDuplicates(ks: seq<string>)
  {
    forall i, j :: 0 <= i < j < |ks| ==> ks[i] != ks[j]
  }

  /**
   * `acc[w] = (acc[w] || 0) + 1` on an insertion-ordered record: a key already
   * present keeps its place and gains one, a new key is added last with count 1.
   */
  function Bump(es: seq<Entry>, w: string): (r: seq<Entry>)
    ensures (forall i :: 0 <= i < |es| ==> es[i].count >= 1) ==> forall i :: 0 <= i < |r| ==> r[i].count >= 1
  {
    if es == [] then [Entry(w, 1)]
    else if es[0].word == w then [Entry(w, es[0].count + 1)] + es[1..]
    else [es[0]] + Bump(es[1..], w)
  }

  /** `words.reduce(..., {})`: the record after folding `ws` from left to right. */
  function Tally(ws: seq<string>): (es: seq<Entry>)
    ensures forall i :: 0 <= i < |es| ==> es[i].count >= 1
  {
    if ws == [] then [] else Bump(Tally(ws[..|ws| - 1]), ws[|ws| - 1])
  }

  /** `acc[w] || 0`: the count stored under `w`, or 0 when it is absent. */
  function Lookup(es: seq<Entry>, w: string): (c: nat)
    ensures w !in Keys(es) ==> c == 0
  {
    if es == [] then 0 else if es[0].word == w then es[0].count else Lookup(es[1..], w)
  }

  /** `getTotalWords`: the sum of the stored counts. */
  function TotalWords(es: seq<Entry>): (t: nat)
    ensures forall i :: 0 <= i < |es| ==> es[i].count <= t
    ensures (forall i :: 0 <= i < |es| ==> es[i].count >= 1) ==> t >= |es|
  {
    if es == [] then 0 else es[0].count + TotalWords(es[1..])
  }

  // ------------------------------------------------- reference definitions

  /** How many times `w` occurs in `ws`. */
  function Occurrences(ws: seq<string>, w: string): nat
  {
    if ws == [] then 0 else Occurrences(ws[..|ws| - 1], w) + (if ws[|ws| - 1] == w then 1 else 0)
  }

  /** The distinct elements of `ws`, each where it first occurs. */
  function Distinct(ws: seq<string>): seq<string>
  {
    if ws == [] then []
    else
      var d := Distinct(ws[..|ws| - 1]);
      if ws[|ws| - 1] in d then d else d + [ws[|ws| - 1]]
  }

  /** The position of the first occurrence of `w` in `ws`. */
  function FirstIndex(ws: seq<string>, w: string): (r: nat)
    requires w in ws
    ensures r < |ws| && ws[r] == w
    ensures forall k :: 0 <= k < r ==> ws[k] != w
  {
    if ws[0] == w then 0 else 1 + FirstIndex(ws[1..], w)
  }

  // ------------------------------------------------------------ one step

  lemma {:induction false} BumpKeys(es: seq<Entry>, w: string)
    ensures Keys(Bump(es, w)) == if w in Keys(es) then Keys(es) else Keys(es) + [w]
  {
    if es != [] && es[0].word != w {
      BumpKeys(es[1..], w);
      assert Keys(es) == [es[0].word] + Keys(es[1..]);
      assert w in Keys(es) <==> w in Keys(es[1..]);
    }
  }

  lemma {:induction false} BumpLookup(es: seq<Entry>, w: string, k: string)
    ensures Lookup(Bump(es, w), k) == Lookup(es, k) + (if k == w then 1 else 0)
  {
    if es != [] && es[0].word != w {
      BumpLookup(es[1..], w, k);
    }
  }

  lemma {:induction false} BumpTotal(es: seq<Entry>, w: string)
    ensures TotalWords(Bump(es, w)) == TotalWords(es) + 1
  {
    if es != [] && es[0].word != w {
      BumpTotal(es[1..], w);
    }
  }

  /** With unique keys, the count stored at a position is what looking its key up yields. */
  lemma {:induction false} LookupAt(es: seq<Entry>, i: nat)
    requires NoDuplicates(Keys(es))
    requires i < |es|
    ensures Lookup(es, es[i].word) == es[i].count
  {
    if i > 0 {
      assert Keys(es)[0] != Keys(es)[i];
      assert Keys(es[1..]) == Keys(es)[1..];
      LookupAt(es[1..], i - 1);
    }
  }

  lemma {:induction false} FirstIndexPrefix(p: seq<string>, q: seq<string>, w: string)
    requires w in p
    ensures FirstIndex(p + q, w) == FirstIndex(p, w)
  {
    var r, r' := FirstIndex(p + q, w), FirstIndex(p, w);
    assert (p + q)[r'] == w;
    assert forall k :: 0 <= k < |p| ==> (p + q)[k] == p[k];
  }

  // --------------------------------------------------------- whole fold

  /** The distinct words are unique, are exactly the words that occur, and come in order of first occurrence. */
  lemma {:induction false} DistinctSpec(ws: seq<string>)
    ensures NoDuplicates(Distinct(ws))
    ensures forall w :: w in Distinct(ws) <==> w in ws
    ensures forall i, j :: 0 <= i < j < |Distinct(ws)| ==>
              FirstIndex(ws, Distinct(ws)[i]) < FirstIndex(ws, Distinct(ws)[j])
  {
    if ws != [] {
      var p, x := ws[..|ws| - 1], ws[|ws| - 1];
      assert ws == p + [x];
      var d := Distinct(p);
      DistinctSpec(p);
      forall w | w in d
        ensures FirstIndex(ws, w) == FirstIndex(p, w) < |p|
      {
        FirstIndexPrefix(p, [x], w);
      }
      if x !in d {
        assert FirstIndex(ws, x) == |p|;
      }
    }
  }

  lemma {:induction false} TallyKeys(ws: seq<string>)
    ensures Keys(Tally(ws)) == Distinct(ws)
  {
    if ws != [] {
      TallyKeys(ws[..|ws| - 1]);
      BumpKeys(Tally(ws[..|ws| - 1]), ws[|ws| - 1]);
    }
  }

  lemma {:induction false} TallyLookup(ws: seq<string>, k: string)
    ensures Lookup(Tally(ws), k) == Occurrences(ws, k)
  {
    if ws != [] {
      TallyLookup(ws[..|ws| - 1], k);
      BumpLookup(Tally(ws[..|ws| - 1]), ws[|ws| - 1], k);
    }
  }

  lemma {:induction false} TallyTotal(ws: seq<string>)
    ensures TotalWords(Tally(ws)) == |ws|
  {
    if ws != [] {
      TallyTotal(ws[..|ws| - 1]);
      BumpTotal(Tally(ws[..|ws| - 1]), ws[|ws| - 1]);
    }
  }

  /**
   * What the fold produces: one entry per distinct word, in order of first
   * occurrence, whose count is the number of occurrences of that word; the
   * counts add up to the number of words.
   */
  lemma TallySpec(ws: seq<string>)
    ensures Keys(Tally(ws)) == Distinct(ws)
    ensures NoDuplicates(Keys(Tally(ws)))
    ensures forall w :: w in Keys(Tally(ws)) <==> w in ws
    ensures forall i, j :: 0 <= i < j < |Tally(ws)| ==>
              Tally(ws)[i].word in ws && Tally(ws)[j].word in ws &&
              FirstIndex(ws, Tally(ws)[i].word) < FirstIndex(ws, Tally(ws)[j].word)
    ensures forall i :: 0 <= i < |Tally(ws)| ==> Tally(ws)[i].count == Occurrences(ws, Tally(ws)[i].word) >= 1
    ensures forall w :: Lookup(Tally(ws), w) == Occurrences(ws, w)
    ensures TotalWords(Tally(ws)) == |ws|
  {
    TallyKeys(ws);
    DistinctSpec(ws);
    TallyTotal(ws);
    forall w
      ensures Lookup(Tally(ws), w) == Occurrences(ws, w)
    {
      TallyLookup(ws, w);
    }
    forall i | 0 <= i < |Tally(ws)|
      ensures Tally(ws)[i].count == Occurrences(ws, Tally(ws)[i].word)
    {
      LookupAt(Tally(ws), i);
    }
  }

  /** The example `b a b c` gives b:2, a:1, c:1, in that order. */
  lemma TallyExample()
    ensures Tally(["b", "a", "b", "c"]) == [Entry("b", 2), Entry("a", 1), Entry("c", 1)]
  {
    assert ["b", "a", "b", "c"][..3] == ["b", "a", "b"];
    assert ["b", "a", "b"][..2] == ["b", "a"];
    assert ["b", "a"][..1] == ["b"];
    assert ["b"][..0] == [];
    var b1, a1 := Entry("b", 1), Entry("a", 1);
    assert Tally(["b"]) == [b1];
    assert Bump([b1], "a") == [b1] + Bump([], "a");
    assert Tally(["b", "a"]) == [b1, a1];
    assert [b1, a1][1..] == [a1];
    assert Tally(["b", "a", "b"]) == [Entry("b", 2), a1];
    assert Bump([Entry("b", 2), a1], "c") == [Entry("b", 2)] + Bump([a1], "c");
    assert Bump([a1], "c") == [a1] + Bump([], "c");
  }

  // ------------------------------------- the record as the engine keeps it

  /** The association list of a record held as its insertion order plus a key-to-count map. */
  function Entries(order: seq<string>, acc: map<string, nat>): (es: seq<Entry>)
    requires forall w :: w in order ==> w in acc
    ensures Keys(es) == order
  {
    if order == [] then [] else [Entry(order[0], acc[order[0]])] + Entries(order[1..], acc)
  }

  lemma {:induction false} EntriesAgree(order: seq<string>, m1: map<string, nat>, m2: map<string, nat>)
    requires forall w :: w in order ==> w in m1 && w in m2 && m1[w] == m2[w]
    ensures Entries(order, m1) == Entries(order, m2)
  {
    if order != [] {
      EntriesAgree(order[1..], m1, m2);
    }
  }

  /** The engine's record: an insertion order without repeats that names exactly the keys of the map. */
  ghost predicate RecordInv(order: seq<string>, acc: map<string, nat>)
  {
    NoDuplicates(order) && forall w :: w in order <==> w in acc
  }

  /** Incrementing a key that is present keeps the record well formed and is `Bump` on the association list. */
  lemma {:induction false} EntriesIncrement(order: seq<string>, acc: map<string, nat>, key: string)
    requires RecordInv(order, acc)
    requires key in acc
    ensures RecordInv(order, acc[key := acc[key] + 1])
    ensures Entries(order, acc[key := acc[key] + 1]) == Bump(Entries(order, acc), key)
  {
    EntriesIncrementList(order, acc, key);
  }

  lemma {:induction false} EntriesIncrementList(order: seq<string>, acc: map<string, nat>, key: string)
    requires NoDuplicates(order) && (forall w :: w in order ==> w in acc)
    requires key in order
    ensures Entries(order, acc[key := acc[key] + 1]) == Bump(Entries(order, acc), key)
  {
    if order[0] == key {
      assert forall w :: w in order[1..] ==> w != key by {
        assert forall j :: 0 <= j < |order[1..]| ==> order[1..][j] == order[j + 1];
      }
      EntriesIncrementHead(order, acc, key);
    } else {
      assert NoDuplicates(order[1..]) && key in order[1..] by {
        assert forall j :: 0 <= j < |order[1..]| ==> order[1..][j] == order[j + 1];
      }
      EntriesIncrementList(order[1..], acc, key);
      EntriesIncrementTail(order, acc, key);
    }
  }

  /** The incremented key comes first: its entry gains one and the rest, which does not mention it, is unchanged. */
  lemma EntriesIncrementHead(order: seq<string>, acc: map<string, nat>, key: string)
    requires forall w :: w in order ==> w in acc
    requires order != [] && order[0] == key
    requires forall w :: w in order[1..] ==> w != key
    ensures Entries(order, acc[key := acc[key] + 1]) == Bump(Entries(order, acc), key)
  {
    var acc', rest := acc[key := acc[key] + 1], order[1..];
    var e0, e1 := Entries(rest, acc), Entries(rest, acc');
    assert e1 == e0 by {
      EntriesAgree(rest, acc, acc');
    }
    assert Entries(order, acc') == [Entry(key, acc[key] + 1)] + e1;
    assert Bump(Entries(order, acc), key) == [Entry(key, acc[key] + 1)] + e0 by {
      var es := Entries(order, acc);
      assert es == [Entry(key, acc[key])] + e0;
      assert es[1..] == e0;
    }
  }

  /** The incremented key comes later: the first entry is kept and the increment happens in the rest. */
  lemma EntriesIncrementTail(order: seq<string>, acc: map<string, nat>, key: string)
    requires (forall w :: w in order ==> w in acc) && key in acc
    requires order != [] && order[0] != key
    requires Entries(order[1..], acc[key := acc[key] + 1]) == Bump(Entries(order[1..], acc), key)
    ensures Entries(order, acc[key := acc[key] + 1]) == Bump(Entries(order, acc), key)
  {
  }

  /** Adding a key that is absent, with count 1, keeps the record well formed and is `Bump` on the association list. */
  lemma {:induction false} EntriesInsert(order: seq<string>, acc: map<string, nat>, key: string)
    requires RecordInv(order, acc)
    requires key !in acc
    ensures RecordInv(order + [key], acc[key := 1])
    ensures Entries(order + [key], acc[key := 1]) == Bump(Entries(order, acc), key)
  {
    EntriesInsertList(order, acc, key);
  }

  lemma {:induction false} EntriesInsertList(order: seq<string>, acc: map<string, nat>, key: string)
    requires forall w :: w in order ==> w in acc
    requires key !in acc
    ensures Entries(order + [key], acc[key := 1]) == Bump(Entries(order, acc), key)
  {
    var acc' := acc[key := 1];
    if order == [] {
      assert order + [key] == [key];
    } else {
      assert (order + [key])[1..] == order[1..] + [key];
      EntriesInsertList(order[1..], acc, key);
      EntriesAgree([order[0]], acc, acc');
    }
  }

  /** One more word folds in as one `Bump`. */
  lemma TallySnoc(ws: seq<string>, i: nat)
    requires i < |ws|
    ensures Tally(ws[..i + 1]) == Bump(Tally(ws[..i]), ws[i])
  {
    assert ws[..i + 1][..i] == ws[..i];
  }

  /**
   * `countWords`: split, keep the letter-bearing words, and fold their
   * normalized forms into a record kept as an insertion order plus a map.
   */
  method CountWords(u: Tables, text: string) returns (counts: seq<Entry>)
    ensures counts == Tally(Tokens(u, text))
  {
    var words := Words(u, text);
    ghost var tokens := Tokens(u, text);
    var order: seq<string> := [];
    var acc: map<string, nat> := map[];
    for i := 0 to |words|
      invariant RecordInv(order, acc)
      invariant Entries(order, acc) == Tally(tokens[..i])
    {
      var key := NormalizeWord(u, words[i]);
      TallySnoc(tokens, i);
      if key in acc {
        EntriesIncrement(order, acc, key);
        acc := acc[key := acc[key] + 1];
      } else {
        EntriesInsert(order, acc, key);
        order := order + [key];
        acc := acc[key := 1];
      }
    }
    assert tokens[..|words|] == tokens;
    counts := Entries(order, acc);
  }

  // ------------------------------------------- the pipeline as a whole

  /**
   * The record `countWords(text)` returns: its keys are the normalized words of
   * `text`, each once, in order of first occurrence; each key's count is the
   * number of words that normalize to it, at least one; and the total is the
   * number of letter-bearing words.
   */
  lemma CountWordsSpec(u: Tables, text: string)
    ensures Keys(Tally(Tokens(u, text))) == Distinct(Tokens(u, text))
    ensures NoDuplicates(Keys(Tally(Tokens(u, text))))
    ensures forall i :: 0 <= i < |Tally(Tokens(u, text))| ==>
              exists j :: 0 <= j < |Words(u, text)| && Tally(Tokens(u, text))[i].word == NormalizeWord(u, Words(u, text)[j])
    ensures forall i :: 0 <= i < |Tally(Tokens(u, text))| ==>
              Tally(Tokens(u, text))[i].count == Occurrences(Tokens(u, text), Tally(Tokens(u, text))[i].word) >= 1
    ensures TotalWords(Tally(Tokens(u, text))) == |Words(u, text)|
  {
    var ts := Tokens(u, text);
    TallySpec(ts);
    forall i | 0 <= i < |Tally(ts)|
      ensures exists j :: 0 <= j < |Words(u, text)| && Tally(ts)[i].word == NormalizeWord(u, Words(u, text)[j])
    {
      assert Tally(ts)[i].word in Keys(Tally(ts));
      var j :| 0 <= j < |ts| && ts[j] == Tally(ts)[i].word;
    }
  }

  /** A text without letter-bearing words counts nothing: empty record, total 0. */
  lemma NoWordsEmptyRecord(u: Tables, text: string)
    requires forall i :: 0 <= i < |Split(u, text)| ==> !HasLetter(u, Split(u, text)[i])
    ensures Tally(Tokens(u, text)) == []
    ensures TotalWords(Tally(Tokens(u, text))) == 0
  {
  }

  /** When the normalization never empties a letter-bearing word, no key is the empty string. */
  lemma NoEmptyKey(u: Tables, text: string)
    requires forall w :: HasLetter(u, w) ==> NormalizeWord(u, w) != []
    ensures forall i :: 0 <= i < |Tally(Tokens(u, text))| ==> Tally(Tokens(u, text))[i].word != []
  {
    CountWordsSpec(u, text);
  }

  // ----------------------------- inherited keys, as the engine runs them

  /**
   * The two all-lower-case property names a plain JavaScript object inherits
   * from `Object.prototype`. Keys are lower-cased, so no other inherited name
   * (`toString`, `hasOwnProperty`, ...) can be a key.
   */
  const ProtoKey: string := "__proto__"
  const ConstructorKey: string := "constructor"

  /**
   * A value of the record, or a running sum, in the code as written: a number,
   * or a string produced by `+` on a value that is not a number.
   */
  datatype JsValue = Num(n: nat) | Str

  /** One own property of the record as the engine holds it. */
  datatype JsEntry = JsEntry(word: string, value: JsValue)

  /** `v + 1`: a number gains one, a string gets "1" appended and stays a string. */
  function PlusOne(v: JsValue): JsValue
  {
    match v
    case Num(n) => Num(n + 1)
    case Str => Str
  }

  /** `x + y`: numbers add; as soon as either side is a string, the result is a string. */
  function Add(x: JsValue, y: JsValue): JsValue
  {
    if x.Num? && y.Num? then Num(x.n + y.n) else Str
  }

  /**
   * `acc[w] = (acc[w] || 0) + 1` exactly as the engine runs it. For
   * "__proto__", `acc[w]` reads the inherited prototype object, the sum is a
   * string, and assigning a non-object to `__proto__` is ignored: the record
   * is left as it was. For "constructor" not yet an own property, `acc[w]`
   * reads the inherited `Object` function, so the new own property holds a
   * string. Every other key behaves as `Bump`.
   */
  function BumpAsWritten(es: seq<JsEntry>, w: string): (r: seq<JsEntry>)
    ensures w == ProtoKey ==> r == es
    ensures w != ProtoKey ==> |r| == |es| || |r| == |es| + 1
    ensures (forall i :: 0 <= i < |es| ==> es[i].word != ProtoKey) ==> forall i :: 0 <= i < |r| ==> r[i].word != ProtoKey
  {
    if w == ProtoKey then es
    else if es == [] then [JsEntry(w, if w == ConstructorKey then Str else Num(1))]
    else if es[0].word == w then [JsEntry(w, PlusOne(es[0].value))] + es[1..]
    else [es[0]] + BumpAsWritten(es[1..], w)
  }

  function TallyAsWritten(ws: seq<string>): (es: seq<JsEntry>)
    ensures |es| <= |ws|
    ensures forall i :: 0 <= i < |es| ==> es[i].word != ProtoKey
  {
    if ws == [] then [] else BumpAsWritten(TallyAsWritten(ws[..|ws| - 1]), ws[|ws| - 1])
  }

  /**
   * `getTotalWords` as written: `sum + count` over the values, from 0. With
   * numbers adding and strings absorbing, the grouping of the sum does not
   * change its kind or its number.
   */
  function TotalAsWritten(es: seq<JsEntry>): (t: JsValue)
    ensures t.Num? <==> forall i :: 0 <= i < |es| ==> es[i].value.Num?
  {
    if es == [] then Num(0) else Add(es[0].value, TotalAsWritten(es[1..]))
  }

  /** The record of the model, as the engine would hold it if every count were a number. */
  function AsJs(es: seq<Entry>): (js: seq<JsEntry>)
    ensures |js| == |es|
    ensures forall i :: 0 <= i < |es| ==> js[i] == JsEntry(es[i].word, Num(es[i].count))
  {
    if es == [] then [] else [JsEntry(es[0].word, Num(es[0].count))] + AsJs(es[1..])
  }

  /** For any word other than the two inherited names, the update as written is `Bump`. */
  lemma {:induction false} BumpAsWrittenAgrees(es: seq<Entry>, w: string)
    requires w != ProtoKey && w != ConstructorKey
    ensures BumpAsWritten(AsJs(es), w) == AsJs(Bump(es, w))
  {
    if es == [] {
      assert BumpAsWritten([], w) == [JsEntry(w, Num(1))];
    } else {
      var js := AsJs(es);
      assert js == [JsEntry(es[0].word, Num(es[0].count))] + AsJs(es[1..]);
      assert js[0] == JsEntry(es[0].word, Num(es[0].count)) && js[1..] == AsJs(es[1..]);
      if es[0].word == w {
        assert BumpAsWritten(js, w) == [JsEntry(w, Num(es[0].count + 1))] + AsJs(es[1..]);
        AsJsCons(Entry(w, es[0].count + 1), es[1..]);
      } else {
        BumpAsWrittenAgrees(es[1..], w);
        assert BumpAsWritten(js, w) == [js[0]] + AsJs(Bump(es[1..], w));
        AsJsCons(es[0], Bump(es[1..], w));
      }
    }
  }

  lemma AsJsCons(e: Entry, es: seq<Entry>)
    ensures AsJs([e] + es) == [JsEntry(e.word, Num(e.count))] + AsJs(es)
  {
    assert ([e] + es)[1..] == es;
  }

  /** The total as written of a record of numbers is their sum. */
  lemma {:induction false} TotalAsWrittenOfNumbers(es: seq<Entry>)
    ensures TotalAsWritten(AsJs(es)) == Num(TotalWords(es))
  {
    if es != [] {
      TotalAsWrittenOfNumbers(es[1..]);
      assert AsJs(es)[1..] == AsJs(es[1..]);
    }
  }

  /**
   * When no word is "__proto__" or "constructor", the code as written builds
   * exactly the record of `Tally`, and its total is the number of words.
   */
  lemma {:induction false} TallyAsWrittenAgrees(ws: seq<string>)
    requires forall i :: 0 <= i < |ws| ==> ws[i] != ProtoKey && ws[i] != ConstructorKey
    ensures TallyAsWritten(ws) == AsJs(Tally(ws))
    ensures TotalAsWritten(TallyAsWritten(ws)) == Num(|ws|)
  {
    if ws != [] {
      var init := ws[..|ws| - 1];
      TallyAsWrittenAgrees(init);
      BumpAsWrittenAgrees(Tally(init), ws[|ws| - 1]);
    }
    TotalAsWrittenOfNumbers(Tally(ws));
    TallyTotal(ws);
  }

  /** The word list `["__proto__"]` holds one word, yet the record as written stays empty and totals 0. */
  lemma ProtoWordLost()
    ensures Tally([ProtoKey]) == [Entry(ProtoKey, 1)]
    ensures TallyAsWritten([ProtoKey]) == []
    ensures TotalAsWritten(TallyAsWritten([ProtoKey])) == Num(0)
  {
  }

  /** The word list `["constructor"]` holds one word, yet as written its count and the total are strings, not 1. */
  lemma ConstructorNotCounted()
    ensures Tally([ConstructorKey]) == [Entry(ConstructorKey, 1)]
    ensures TallyAsWritten([ConstructorKey]) == [JsEntry(ConstructorKey, Str)]
    ensures TotalAsWritten(TallyAsWritten([ConstructorKey])) == Str
  {
  }
}
