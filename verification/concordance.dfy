/**
  The concordance: a map from word to the list of sentence numbers the word
  occurs in, iterated in ascending word order.

  `std::map<Word, Occurences>` is modelled by what it is, an ordered
  structure: a sequence of entries whose words strictly ascend. `ToMap`
  abstracts it to a Dafny map, and every operation is stated against that
  map as well as against the order.
 */
module Concordances {
  import opened LexOrder

  type Word = string
  type Sentence = nat
  type WordIndex = nat

  /** An Occurences object: sentence numbers in insertion order, duplicates kept. */
  type Occurrences = seq<Sentence>

  datatype Entry = Entry(word: Word, occurrences: Occurrences)

  predicate Ascending(es: seq<Entry>) {
    forall i, j | 0 <= i < j < |es| :: Less(es[i].word, es[j].word)
  }

  /** The state of a Concordance: its entries, in the order std::map keeps them. */
  type Concordance = es: seq<Entry> | Ascending(es) witness []

  /** Occurences::operator<<: appends one sentence number. */
  function AppendOccurrence(o: Occurrences, s: Sentence): (r: Occurrences)
    ensures |r| == |o| + 1 && r[..|o|] == o && r[|o|] == s
  {
    o + [s]
  }

  function Words(c: seq<Entry>): set<Word> {
    set i | 0 <= i < |c| :: c[i].word
  }

  /** Position of the first entry for `w`. */
  function FindIndex(c: seq<Entry>, w: Word): (i: nat)
    requires w in Words(c)
    ensures i < |c| && c[i].word == w
    ensures forall j | 0 <= j < i :: c[j].word != w
  {
    if c[0].word == w then 0
    else
      assert w in Words(c[1..]) by {
        var k :| 0 <= k < |c| && c[k].word == w;
        assert c[1..][k - 1].word == w;
      }
      1 + FindIndex(c[1..], w)
  }

  /** The map the entries stand for. */
  function ToMap(c: seq<Entry>): map<Word, Occurrences> {
    map w | w in Words(c) :: c[FindIndex(c, w)].occurrences
  }

  /** Missing words have no occurrences. */
  function OccurrencesOf(m: map<Word, Occurrences>, w: Word): Occurrences {
    if w in m then m[w] else []
  }

  /** `m` has the words of `c` as keys and the lists of `c` as values. */
  predicate Represents(c: seq<Entry>, m: map<Word, Occurrences>) {
    m.Keys == Words(c) && forall i | 0 <= i < |c| :: c[i].word in m && m[c[i].word] == c[i].occurrences
  }

  lemma ToMapAll(c: Concordance)
    ensures Represents(c, ToMap(c))
  {
    forall i | 0 <= i < |c|
      ensures c[i].word in ToMap(c) && ToMap(c)[c[i].word] == c[i].occurrences
    {
      ToMapAt(c, i);
    }
  }

  /** The abstraction is the only map a concordance represents. */
  lemma ToMapEquals(c: Concordance, m: map<Word, Occurrences>)
    requires Represents(c, m)
    ensures ToMap(c) == m
  {
    ToMapAll(c);
  }

  /** Entries with strictly ascending words hold as many words as entries. */
  lemma {:induction false} DistinctWordCount(c: Concordance)
    ensures |Words(c)| == |c|
    decreases |c|
  {
    if |c| > 0 {
      var tail: Concordance := c[1..];
      DistinctWordCount(tail);
      assert Words(c) == {c[0].word} + Words(tail) by {
        forall w | w in Words(c)
          ensures w in {c[0].word} + Words(tail)
        {
          var k :| 0 <= k < |c| && c[k].word == w;
          if k > 0 {
            assert tail[k - 1].word == w;
          }
        }
      }
      assert c[0].word !in Words(tail) by {
        forall k | 0 <= k < |tail|
          ensures tail[k].word != c[0].word
        {
          assert Less(c[0].word, c[k + 1].word);
          Irreflexive(c[0].word);
        }
      }
    }
  }

  /** size(): the number of distinct words. */
  function Size(c: Concordance): (n: nat)
    ensures n == |ToMap(c)|
  {
    DistinctWordCount(c);
    assert ToMap(c).Keys == Words(c);
    |c|
  }

  /** makeEmpty. */
  function MakeEmpty(): (c: Concordance)
    ensures ToMap(c) == map[]
    ensures Size(c) == 0
  {
    []
  }

  /**
    makeFromFile is a stub in the source: it ignores its path and returns an
    empty concordance.
   */
  function MakeFromFile(path: string): (c: Concordance)
    ensures ToMap(c) == map[]
    ensures Size(c) == 0
  {
    MakeEmpty()
  }

  /** The first position whose word is not below `w`: where std::map looks `w` up. */
  function LowerBound(c: seq<Entry>, w: Word, i: nat): (r: nat)
    requires i <= |c|
    requires forall j | 0 <= j < i :: Less(c[j].word, w)
    ensures i <= r <= |c|
    ensures forall j | 0 <= j < r :: Less(c[j].word, w)
    ensures r < |c| ==> !Less(c[r].word, w)
    decreases |c| - i
  {
    if i == |c| || !Less(c[i].word, w) then i else LowerBound(c, w, i + 1)
  }

  /**
    add / addOccurence: `m_concordance[word] << sentence`. Appends the
    sentence to the word's list, creating the list [sentence] for a new
    word; every other word keeps its list.
   */
  function Add(c: Concordance, w: Word, s: Sentence): (r: Concordance)
    ensures ToMap(r) == ToMap(c)[w := AppendOccurrence(OccurrencesOf(ToMap(c), w), s)]
    ensures Size(r) == if w in ToMap(c) then Size(c) else Size(c) + 1
  {
    var i := LowerBound(c, w, 0);
    var r := if i < |c| && c[i].word == w then AppendAt(c, i, s) else InsertAt(c, i, w, s);
    AddSize(c, r, w);
    r
  }

  /** The entry at `i` gets `s` appended to its list. */
  function AppendAt(c: Concordance, i: nat, s: Sentence): (r: Concordance)
    requires i < |c|
    ensures c[i].word in ToMap(c)
    ensures ToMap(r) == MapAdd(ToMap(c), c[i].word, s)
  {
    var e := Entry(c[i].word, AppendOccurrence(c[i].occurrences, s));
    UpdateAscending(c, i, e);
    var r: Concordance := c[i := e];
    UpdateMap(c, i, r, s);
    ToMapAt(c, i);
    r
  }

  /** A new entry [s] for `w` goes in at `i`, where the order puts it. */
  function InsertAt(c: Concordance, i: nat, w: Word, s: Sentence): (r: Concordance)
    requires i <= |c|
    requires forall j | 0 <= j < i :: Less(c[j].word, w)
    requires i < |c| ==> !Less(c[i].word, w) && c[i].word != w
    ensures w !in ToMap(c)
    ensures ToMap(r) == MapAdd(ToMap(c), w, s)
  {
    InsertAscending(c, i, w, s);
    var r: Concordance := c[..i] + [Entry(w, [s])] + c[i..];
    InsertMap(c, i, w, s, r);
    r
  }

  lemma AddSize(c: Concordance, r: Concordance, w: Word)
    requires ToMap(r).Keys == ToMap(c).Keys + {w}
    ensures Size(r) == if w in ToMap(c) then Size(c) else Size(c) + 1
  {
  }

  /** The keys of the abstraction are the words of the entries. */
  lemma ToMapKeys(c: seq<Entry>)
    ensures ToMap(c).Keys == Words(c)
  {
  }

  /** Each entry's list is the abstraction's value for its word. */
  lemma ToMapAt(c: Concordance, i: nat)
    requires i < |c|
    ensures c[i].word in ToMap(c) && ToMap(c)[c[i].word] == c[i].occurrences
  {
    var k := FindIndex(c, c[i].word);
    if k < i {
      assert Less(c[k].word, c[i].word);
      Irreflexive(c[i].word);
    }
  }

  /** Entries at different positions hold different words. */
  lemma DistinctAt(c: Concordance, i: nat, k: nat)
    requires i < |c| && k < |c| && i != k
    ensures c[i].word != c[k].word
  {
    Irreflexive(c[i].word);
    if i < k {
      assert Less(c[i].word, c[k].word);
    } else {
      assert Less(c[k].word, c[i].word);
    }
  }

  /** Replacing an entry by one for the same word keeps the order. */
  lemma UpdateAscending(c: Concordance, i: nat, e: Entry)
    requires i < |c| && e.word == c[i].word
    ensures Ascending(c[i := e])
  {
    var r := c[i := e];
    forall a, b | 0 <= a < b < |r|
      ensures Less(r[a].word, r[b].word)
    {
      assert r[a].word == c[a].word && r[b].word == c[b].word;
    }
  }

  /** Replacing an entry by one for the same word keeps the words and every other entry. */
  lemma UpdateWords(c: seq<Entry>, i: nat, e: Entry, r: seq<Entry>)
    requires i < |c| && e.word == c[i].word && r == c[i := e]
    ensures Words(r) == Words(c)
    ensures |r| == |c| && r[i] == e
    ensures forall k | 0 <= k < |r| && k != i :: r[k] == c[k]
  {
    assert forall k | 0 <= k < |c| :: r[k].word == c[k].word;
  }

  lemma UpdateMap(c: Concordance, i: nat, r: Concordance, s: Sentence)
    requires i < |c|
    requires r == c[i := Entry(c[i].word, AppendOccurrence(c[i].occurrences, s))]
    ensures var w := c[i].word;
      ToMap(r) == ToMap(c)[w := AppendOccurrence(OccurrencesOf(ToMap(c), w), s)]
  {
    ToMapAll(c);
    UpdateRepresents(c, i, r, s, ToMap(c));
    ToMapEquals(r, MapAdd(ToMap(c), c[i].word, s));
  }

  lemma UpdateRepresents(c: Concordance, i: nat, r: seq<Entry>, s: Sentence, mc: map<Word, Occurrences>)
    requires i < |c| && Represents(c, mc)
    requires r == c[i := Entry(c[i].word, AppendOccurrence(c[i].occurrences, s))]
    ensures Represents(r, MapAdd(mc, c[i].word, s))
  {
    var w := c[i].word;
    var m := MapAdd(mc, w, s);
    UpdateWords(c, i, Entry(w, AppendOccurrence(c[i].occurrences, s)), r);
    forall k | 0 <= k < |r|
      ensures r[k].word in m && m[r[k].word] == r[k].occurrences
    {
      if k != i {
        DistinctAt(c, i, k);
      }
    }
  }

  lemma InsertAscending(c: Concordance, i: nat, w: Word, s: Sentence)
    requires i <= |c|
    requires forall j | 0 <= j < i :: Less(c[j].word, w)
    requires i < |c| ==> !Less(c[i].word, w) && c[i].word != w
    ensures forall j | i <= j < |c| :: Less(w, c[j].word)
    ensures Ascending(c[..i] + [Entry(w, [s])] + c[i..])
  {
    forall j | i <= j < |c|
      ensures Less(w, c[j].word)
    {
      Total(c[i].word, w);
      if j > i {
        Transitive(w, c[i].word, c[j].word);
      }
    }
    var r := c[..i] + [Entry(w, [s])] + c[i..];
    InsertIndex(c, i, Entry(w, [s]), r);
    forall a, b | 0 <= a < b < |r|
      ensures Less(r[a].word, r[b].word)
    {
      if b < i {
        assert r[a] == c[a] && r[b] == c[b];
      } else if b == i {
        assert r[a] == c[a];
      } else if a < i {
        assert r[a] == c[a] && r[b] == c[b - 1];
        Transitive(c[a].word, w, c[b - 1].word);
      } else if a == i {
        assert r[b] == c[b - 1];
      } else {
        assert r[a] == c[a - 1] && r[b] == c[b - 1];
      }
    }
  }

  /** Where the entries land when `e` is inserted at position `i`. */
  lemma InsertIndex(c: seq<Entry>, i: nat, e: Entry, r: seq<Entry>)
    requires i <= |c| && r == c[..i] + [e] + c[i..]
    ensures |r| == |c| + 1 && r[i] == e
    ensures forall k | 0 <= k < i :: r[k] == c[k]
    ensures forall k | i < k < |r| :: r[k] == c[k - 1]
  {
  }

  lemma InsertWords(c: seq<Entry>, i: nat, r: seq<Entry>)
    requires i <= |c| && |r| == |c| + 1
    requires forall k | 0 <= k < i :: r[k] == c[k]
    requires forall k | i < k < |r| :: r[k] == c[k - 1]
    ensures Words(r) == Words(c) + {r[i].word}
  {
    forall k | 0 <= k < |c|
      ensures c[k].word in Words(r)
    {
      if k < i {
        assert r[k] == c[k];
      } else {
        assert r[k + 1] == c[k];
      }
    }
    forall k | 0 <= k < |r|
      ensures r[k].word in Words(c) + {r[i].word}
    {
      if k < i {
        assert r[k] == c[k];
      } else if k > i {
        assert r[k] == c[k - 1];
      }
    }
  }

  lemma InsertMap(c: Concordance, i: nat, w: Word, s: Sentence, r: Concordance)
    requires i <= |c|
    requires forall j | 0 <= j < i :: Less(c[j].word, w)
    requires forall j | i <= j < |c| :: Less(w, c[j].word)
    requires r == c[..i] + [Entry(w, [s])] + c[i..]
    ensures w !in ToMap(c)
    ensures ToMap(r) == ToMap(c)[w := AppendOccurrence(OccurrencesOf(ToMap(c), w), s)]
  {
    ToMapAll(c);
    InsertRepresents(c, i, w, s, r, ToMap(c));
    ToMapEquals(r, MapAdd(ToMap(c), w, s));
  }

  lemma InsertRepresents(c: seq<Entry>, i: nat, w: Word, s: Sentence, r: seq<Entry>, mc: map<Word, Occurrences>)
    requires i <= |c| && Represents(c, mc)
    requires forall j | 0 <= j < i :: Less(c[j].word, w)
    requires forall j | i <= j < |c| :: Less(w, c[j].word)
    requires r == c[..i] + [Entry(w, [s])] + c[i..]
    ensures w !in mc
    ensures Represents(r, MapAdd(mc, w, s))
  {
    Irreflexive(w);
    assert w !in Words(c) by {
      forall k | 0 <= k < |c|
        ensures c[k].word != w
      {
        if k < i {
          assert Less(c[k].word, w);
        } else {
          assert Less(w, c[k].word);
        }
      }
    }
    var m := mc[w := [s]];
    InsertIndex(c, i, Entry(w, [s]), r);
    InsertWords(c, i, r);
    forall k | 0 <= k < |r|
      ensures r[k].word in m && m[r[k].word] == r[k].occurrences
    {
      if k < i {
        assert r[k] == c[k] && c[k].word != w;
      } else if k > i {
        assert r[k] == c[k - 1] && c[k - 1].word != w;
      }
    }
    assert MapAdd(mc, w, s) == m;
  }

  /** The representation of a concordance is unique: entries with the same map are the same entries. */
  lemma {:induction false} Canonical(a: Concordance, b: Concordance)
    requires ToMap(a) == ToMap(b)
    ensures a == b
    decreases |a|
  {
    ToMapKeys(a);
    ToMapKeys(b);
    if |a| == 0 {
      NoWords(a);
      NoWords(b);
    } else {
      NoWords(a);
      NoWords(b);
      SameFirstWord(a, b);
      ToMapAt(a, 0);
      ToMapAt(b, 0);
      var ta: Concordance := a[1..];
      var tb: Concordance := b[1..];
      var m := ToMap(a) - {a[0].word};
      TailMap(a, m);
      TailMap(b, m);
      Canonical(ta, tb);
      ConsTail(a);
      ConsTail(b);
    }
  }

  lemma ConsTail(c: seq<Entry>)
    requires |c| > 0
    ensures c == [c[0]] + c[1..]
  {
  }

  lemma NoWords(c: seq<Entry>)
    ensures Words(c) == {} <==> |c| == 0
  {
    if |c| > 0 {
      assert c[0].word in Words(c);
    }
  }

  /** Both representations start with the least word of the common key set. */
  lemma SameFirstWord(a: Concordance, b: Concordance)
    requires |a| > 0 && |b| > 0 && Words(a) == Words(b)
    ensures a[0].word == b[0].word
  {
    assert a[0].word in Words(b);
    assert b[0].word in Words(a);
    var j :| 0 <= j < |b| && b[j].word == a[0].word;
    var k :| 0 <= k < |a| && a[k].word == b[0].word;
    if j > 0 && k > 0 {
      assert Less(b[0].word, a[0].word);
      assert Less(a[0].word, b[0].word);
      Asymmetric(a[0].word, b[0].word);
    }
  }

  /** Dropping the first entry drops exactly its word. */
  lemma TailWords(c: Concordance)
    requires |c| > 0
    ensures Words(c[1..]) == Words(c) - {c[0].word}
  {
    var t := c[1..];
    forall k | 0 <= k < |t|
      ensures t[k].word != c[0].word
    {
      DistinctAt(c, 0, k + 1);
    }
    forall k | 0 < k < |c|
      ensures c[k].word in Words(t)
    {
      assert t[k - 1] == c[k];
    }
  }

  lemma TailMap(c: Concordance, m: map<Word, Occurrences>)
    requires |c| > 0 && m == ToMap(c) - {c[0].word}
    ensures ToMap(c[1..]) == m
  {
    var t: Concordance := c[1..];
    ToMapAll(c);
    TailRepresents(c, ToMap(c), m);
    ToMapEquals(t, m);
  }

  lemma TailRepresents(c: Concordance, mc: map<Word, Occurrences>, m: map<Word, Occurrences>)
    requires |c| > 0 && Represents(c, mc) && m == mc - {c[0].word}
    ensures Represents(c[1..], m)
  {
    var t := c[1..];
    TailWords(c);
    forall k | 0 <= k < |t|
      ensures t[k].word in m && m[t[k].word] == t[k].occurrences
    {
      DistinctAt(c, 0, k + 1);
    }
  }

  /** operator==: deep equality of the maps, list by list and in order. */
  function Equals(a: Concordance, b: Concordance): (r: bool)
    ensures r <==> ToMap(a) == ToMap(b)
  {
    if ToMap(a) == ToMap(b) then Canonical(a, b); a == b else a == b
  }

  /** operator!=: the negation of operator==. */
  function NotEquals(a: Concordance, b: Concordance): (r: bool)
    ensures r <==> ToMap(a) != ToMap(b)
  {
    !Equals(a, b)
  }

  /**
    A copy compares equal to its original, and an add to the copy leaves the
    original as it was: the two then differ.
   */
  lemma CopyIsIndependent(original: Concordance, w: Word, s: Sentence)
    ensures var copy := original;
      Equals(copy, original) && NotEquals(Add(copy, w, s), original)
  {
    var m := ToMap(Add(original, w, s));
    assert w in m && |m[w]| == |OccurrencesOf(ToMap(original), w)| + 1;
  }

  /** One call of the forEachWord callback. */
  datatype Visit = Visit(index: WordIndex, word: Word, occurrences: Occurrences)

  /**
    forEachWord: the calls the callback receives, in order. Every word is
    visited exactly once, in ascending order, with indices 1, 2, ..., size().
   */
  function ForEachWord(c: Concordance): (r: seq<Visit>)
    ensures |r| == Size(c)
    ensures forall i | 0 <= i < |r| :: r[i].index == i + 1
    ensures forall i | 0 <= i < |r| :: r[i].word in ToMap(c) && ToMap(c)[r[i].word] == r[i].occurrences
    ensures forall i, j | 0 <= i < j < |r| :: Less(r[i].word, r[j].word)
    ensures forall w | w in ToMap(c) :: exists i | 0 <= i < |r| :: r[i].word == w
  {
    var r := seq(|c|, i requires 0 <= i < |c| => Visit(i + 1, c[i].word, c[i].occurrences));
    VisitsCover(c, r);
    r
  }

  lemma VisitsCover(c: Concordance, r: seq<Visit>)
    requires |r| == |c|
    requires forall i | 0 <= i < |c| :: r[i] == Visit(i + 1, c[i].word, c[i].occurrences)
    ensures forall i | 0 <= i < |r| :: r[i].word in ToMap(c) && ToMap(c)[r[i].word] == r[i].occurrences
    ensures forall w | w in ToMap(c) :: exists i | 0 <= i < |r| :: r[i].word == w
  {
    ToMapAll(c);
    forall w | w in ToMap(c)
      ensures exists i | 0 <= i < |r| :: r[i].word == w
    {
      var i :| 0 <= i < |c| && c[i].word == w;
      assert r[i].word == w;
    }
  }

  /** `k` copies of the sentence number `s`. */
  function Repeat(k: nat, s: Sentence): (r: Occurrences)
    ensures |r| == k && forall i | 0 <= i < k :: r[i] == s
  {
    seq(k, _ => s)
  }

  function Elements(ws: seq<Word>): set<Word> {
    set x | x in ws
  }

  /** The inner loop of makeFromSentences: every word of one sentence, in order, under number `s`. */
  function AddSentence(c: Concordance, ws: seq<Word>, s: Sentence): Concordance
    decreases |ws|
  {
    if |ws| == 0 then c else AddSentence(Add(c, ws[0], s), ws[1..], s)
  }

  /** The outer loop of makeFromSentences: sentence `n`, then the rest from `n + 1`. */
  function AddSentences(c: Concordance, sentences: seq<seq<Word>>, n: Sentence): Concordance
    decreases |sentences|
  {
    if |sentences| == 0 then c
    else AddSentences(AddSentence(c, sentences[0], n), sentences[1..], n + 1)
  }

  /** Every word that occurs in some sentence. */
  function AllWords(sentences: seq<seq<Word>>): (r: set<Word>)
    ensures forall w :: w in r <==> exists i | 0 <= i < |sentences| :: w in sentences[i]
  {
    if |sentences| == 0 then {}
    else
      var rest := AllWords(sentences[1..]);
      assert forall w :: (exists i | 0 <= i < |sentences| :: w in sentences[i]) <==>
        w in sentences[0] || exists i | 0 <= i < |sentences| - 1 :: w in sentences[1..][i] by {
        forall w, i | 0 < i < |sentences| && w in sentences[i]
          ensures w in sentences[1..][i - 1]
        {
        }
      }
      Elements(sentences[0]) + rest
  }

  /**
    Reference definition of a word's list after numbering `sentences` from
    `n`: sentence n + k contributes its number once per occurrence of the
    word in it, and the sentences contribute in order.
   */
  function Numbers(sentences: seq<seq<Word>>, n: Sentence, w: Word): Occurrences
    decreases |sentences|
  {
    if |sentences| == 0 then []
    else Repeat(multiset(sentences[0])[w], n) + Numbers(sentences[1..], n + 1, w)
  }

  /** `add` seen on the abstract map. */
  function MapAdd(m: map<Word, Occurrences>, w: Word, s: Sentence): map<Word, Occurrences> {
    m[w := AppendOccurrence(OccurrencesOf(m, w), s)]
  }

  /** The inner loop of makeFromSentences seen on the abstract map. */
  function MapAddSentence(m: map<Word, Occurrences>, ws: seq<Word>, s: Sentence): map<Word, Occurrences>
    decreases |ws|
  {
    if |ws| == 0 then m else MapAddSentence(MapAdd(m, ws[0], s), ws[1..], s)
  }

  lemma {:induction false} AddSentenceMap(c: Concordance, ws: seq<Word>, s: Sentence)
    ensures ToMap(AddSentence(c, ws, s)) == MapAddSentence(ToMap(c), ws, s)
    decreases |ws|
  {
    if |ws| > 0 {
      AddSentenceMap(Add(c, ws[0], s), ws[1..], s);
    }
  }

  /** Adding one sentence appends its number to a word's list once per occurrence. */
  lemma {:induction false} MapAddSentenceOccurrences(m: map<Word, Occurrences>, ws: seq<Word>, s: Sentence, w: Word)
    ensures OccurrencesOf(MapAddSentence(m, ws, s), w) == OccurrencesOf(m, w) + Repeat(multiset(ws)[w], s)
    decreases |ws|
  {
    var before := OccurrencesOf(m, w);
    if |ws| == 0 {
      assert before + Repeat(0, s) == before;
    } else {
      var next := MapAdd(m, ws[0], s);
      var d := if ws[0] == w then 1 else 0;
      var k := multiset(ws[1..])[w];
      MapAddSentenceOccurrences(next, ws[1..], s, w);
      MapAddOccurrences(m, ws[0], s, w);
      CountHead(ws, w);
      RepeatAdd(d, k, s);
      Associates(before, Repeat(d, s), Repeat(k, s));
    }
  }

  /** One `add` appends to the list of its own word only. */
  lemma MapAddOccurrences(m: map<Word, Occurrences>, x: Word, s: Sentence, w: Word)
    ensures OccurrencesOf(MapAdd(m, x, s), w) == OccurrencesOf(m, w) + Repeat(if x == w then 1 else 0, s)
  {
    if x != w {
      assert OccurrencesOf(m, w) + [] == OccurrencesOf(m, w);
    }
  }

  lemma RepeatAdd(a: nat, b: nat, s: Sentence)
    ensures Repeat(a, s) + Repeat(b, s) == Repeat(a + b, s)
  {
  }

  lemma Associates(a: Occurrences, b: Occurrences, c: Occurrences)
    ensures (a + b) + c == a + (b + c)
  {
  }

  /** Adding one sentence adds exactly its words as keys. */
  lemma {:induction false} MapAddSentenceKeys(m: map<Word, Occurrences>, ws: seq<Word>, s: Sentence)
    ensures MapAddSentence(m, ws, s).Keys == m.Keys + Elements(ws)
    decreases |ws|
  {
    if |ws| > 0 {
      MapAddSentenceKeys(MapAdd(m, ws[0], s), ws[1..], s);
      ElementsHead(ws);
    }
  }

  lemma CountHead(ws: seq<Word>, w: Word)
    requires |ws| > 0
    ensures multiset(ws)[w] == multiset(ws[1..])[w] + if ws[0] == w then 1 else 0
  {
    assert ws == [ws[0]] + ws[1..];
  }

  lemma ElementsHead(ws: seq<Word>)
    requires |ws| > 0
    ensures Elements(ws) == {ws[0]} + Elements(ws[1..])
  {
    assert ws == [ws[0]] + ws[1..];
  }

  /** The outer loop of makeFromSentences seen on the abstract map. */
  function MapAddSentences(m: map<Word, Occurrences>, sentences: seq<seq<Word>>, n: Sentence): map<Word, Occurrences>
    decreases |sentences|
  {
    if |sentences| == 0 then m
    else MapAddSentences(MapAddSentence(m, sentences[0], n), sentences[1..], n + 1)
  }

  lemma {:induction false} AddSentencesMap(c: Concordance, sentences: seq<seq<Word>>, n: Sentence)
    ensures ToMap(AddSentences(c, sentences, n)) == MapAddSentences(ToMap(c), sentences, n)
    decreases |sentences|
  {
    if |sentences| > 0 {
      AddSentenceMap(c, sentences[0], n);
      AddSentencesMap(AddSentence(c, sentences[0], n), sentences[1..], n + 1);
    }
  }

  lemma {:induction false} MapAddSentencesOccurrences(m: map<Word, Occurrences>, sentences: seq<seq<Word>>, n: Sentence, w: Word)
    ensures OccurrencesOf(MapAddSentences(m, sentences, n), w) == OccurrencesOf(m, w) + Numbers(sentences, n, w)
    decreases |sentences|
  {
    var before := OccurrencesOf(m, w);
    if |sentences| == 0 {
      assert before + [] == before;
    } else {
      var next := MapAddSentence(m, sentences[0], n);
      var head := Repeat(multiset(sentences[0])[w], n);
      var tail := Numbers(sentences[1..], n + 1, w);
      MapAddSentenceOccurrences(m, sentences[0], n, w);
      MapAddSentencesOccurrences(next, sentences[1..], n + 1, w);
      Associates(before, head, tail);
    }
  }

  lemma {:induction false} MapAddSentencesKeys(m: map<Word, Occurrences>, sentences: seq<seq<Word>>, n: Sentence)
    ensures MapAddSentences(m, sentences, n).Keys == m.Keys + AllWords(sentences)
    decreases |sentences|
  {
    if |sentences| > 0 {
      MapAddSentenceKeys(m, sentences[0], n);
      MapAddSentencesKeys(MapAddSentence(m, sentences[0], n), sentences[1..], n + 1);
    }
  }

  /**
    What the reference list says: numbers stay within the sentences, a
    number appears only for a sentence holding the word, the list ascends,
    and sentence n + k appears exactly as often as the word occurs in it.
   */
  lemma NumbersMeaning(sentences: seq<seq<Word>>, n: Sentence, w: Word)
    ensures forall x | x in Numbers(sentences, n, w) :: n <= x < n + |sentences| && w in sentences[x - n]
    ensures forall i, j | 0 <= i < j < |Numbers(sentences, n, w)| :: Numbers(sentences, n, w)[i] <= Numbers(sentences, n, w)[j]
    ensures forall k | 0 <= k < |sentences| :: multiset(Numbers(sentences, n, w))[n + k] == multiset(sentences[k])[w]
  {
    NumbersRange(sentences, n, w);
    NumbersAscend(sentences, n, w);
    NumbersCount(sentences, n, w);
  }

  lemma {:induction false} NumbersRange(sentences: seq<seq<Word>>, n: Sentence, w: Word)
    ensures forall x | x in Numbers(sentences, n, w) :: n <= x < n + |sentences| && w in sentences[x - n]
    decreases |sentences|
  {
    if |sentences| > 0 {
      var head := Repeat(multiset(sentences[0])[w], n);
      var tail := Numbers(sentences[1..], n + 1, w);
      NumbersRange(sentences[1..], n + 1, w);
      forall x | x in head + tail
        ensures n <= x < n + |sentences| && w in sentences[x - n]
      {
        if x in head {
          assert w in multiset(sentences[0]);
        } else {
          assert x in tail;
          assert sentences[1..][x - n - 1] == sentences[x - n];
        }
      }
    }
  }

  lemma {:induction false} NumbersAscend(sentences: seq<seq<Word>>, n: Sentence, w: Word)
    ensures forall x | x in Numbers(sentences, n, w) :: n <= x
    ensures forall i, j | 0 <= i < j < |Numbers(sentences, n, w)| :: Numbers(sentences, n, w)[i] <= Numbers(sentences, n, w)[j]
    decreases |sentences|
  {
    if |sentences| > 0 {
      var head := Repeat(multiset(sentences[0])[w], n);
      var tail := Numbers(sentences[1..], n + 1, w);
      NumbersAscend(sentences[1..], n + 1, w);
      AscendingJoin(head, tail, n);
    }
  }

  /** A run of `n`s followed by an ascending list of numbers above `n` ascends. */
  lemma AscendingJoin(head: Occurrences, tail: Occurrences, n: Sentence)
    requires forall x | x in head :: x == n
    requires forall x | x in tail :: n + 1 <= x
    requires forall i, j | 0 <= i < j < |tail| :: tail[i] <= tail[j]
    ensures forall x | x in head + tail :: n <= x
    ensures forall i, j | 0 <= i < j < |head + tail| :: (head + tail)[i] <= (head + tail)[j]
  {
    var r := head + tail;
    forall i, j | 0 <= i < j < |r|
      ensures r[i] <= r[j]
    {
      if j >= |head| {
        assert r[j] == tail[j - |head|] && r[j] in tail;
        if i >= |head| {
          assert r[i] == tail[i - |head|];
        } else {
          assert r[i] in head;
        }
      } else {
        assert r[i] in head && r[j] in head;
      }
    }
  }

  lemma {:induction false} NumbersCount(sentences: seq<seq<Word>>, n: Sentence, w: Word)
    ensures forall k | 0 <= k < |sentences| :: multiset(Numbers(sentences, n, w))[n + k] == multiset(sentences[k])[w]
    decreases |sentences|
  {
    if |sentences| > 0 {
      var head := Repeat(multiset(sentences[0])[w], n);
      var tail := Numbers(sentences[1..], n + 1, w);
      NumbersCount(sentences[1..], n + 1, w);
      NumbersAscend(sentences[1..], n + 1, w);
      RepeatMultiset(|head|, n);
      assert multiset(head + tail) == multiset(head) + multiset(tail);
      forall k | 0 <= k < |sentences|
        ensures multiset(head + tail)[n + k] == multiset(sentences[k])[w]
      {
        if k == 0 {
          assert n !in tail;
        } else {
          assert sentences[1..][k - 1] == sentences[k];
        }
      }
    }
  }

  lemma {:induction false} RepeatMultiset(k: nat, s: Sentence)
    ensures multiset(Repeat(k, s)) == multiset{}[s := k]
    decreases k
  {
    if k > 0 {
      RepeatMultiset(k - 1, s);
      assert Repeat(k, s) == Repeat(k - 1, s) + [s];
    }
  }

  /**
    makeFromSentences: the words of the i-th list are recorded, verbatim,
    under sentence number i, counting from 1; an empty list still uses up
    its number.
   */
  function MakeFromSentences(sentences: seq<seq<Word>>): (r: Concordance)
    ensures ToMap(r).Keys == AllWords(sentences)
    ensures forall w :: OccurrencesOf(ToMap(r), w) == Numbers(sentences, 1, w)
  {
    var r := AddSentences(MakeEmpty(), sentences, 1);
    AddSentencesMap(MakeEmpty(), sentences, 1);
    forall w
      ensures OccurrencesOf(ToMap(r), w) == Numbers(sentences, 1, w)
    {
      MapAddSentencesOccurrences(map[], sentences, 1, w);
    }
    MapAddSentencesKeys(map[], sentences, 1);
    r
  }

  /**
    A word's list in a concordance built from sentences names, in ascending
    order, each sentence holding the word once per occurrence there.
   */
  lemma MakeFromSentencesNumbering(sentences: seq<seq<Word>>, w: Word)
    ensures var o := OccurrencesOf(ToMap(MakeFromSentences(sentences)), w);
      (forall x | x in o :: 1 <= x <= |sentences| && w in sentences[x - 1])
      && (forall i, j | 0 <= i < j < |o| :: o[i] <= o[j])
      && (forall k | 0 <= k < |sentences| :: multiset(o)[k + 1] == multiset(sentences[k])[w])
  {
    NumbersMeaning(sentences, 1, w);
  }

  /** A word twice in the first sentence is recorded twice; the empty second sentence still takes number 2. */
  lemma DuplicatesAndEmptySentenceExample(S: seq<seq<Word>>)
    requires S == [["x", "x"], [], ["x"]]
    ensures ToMap(MakeFromSentences(S)) == map["x" := [1, 1, 3]]
  {
    NumbersOfThree(S, 1, "x");
    assert multiset(S[0])["x"] == 2 by {
      assert S[0] == ["x"] + ["x"];
    }
    assert multiset(S[2])["x"] == 1;
    assert Repeat(2, 1) == [1, 1] && Repeat(0, 2) == [] && Repeat(1, 3) == [3];
    assert AllWords(S) == {"x"} by {
      assert Elements(S[0]) == {"x"} && Elements(S[1]) == {} && Elements(S[2]) == {"x"};
      AllWordsOfThree(S);
    }
    MakeFromSentencesMap(S, map["x" := [1, 1, 3]]);
  }

  lemma NumbersOfThree(S: seq<seq<Word>>, n: Sentence, w: Word)
    requires |S| == 3
    ensures Numbers(S, n, w) == Repeat(multiset(S[0])[w], n) + Repeat(multiset(S[1])[w], n + 1) + Repeat(multiset(S[2])[w], n + 2)
  {
    NumbersOfTwo(S[1..], n + 1, w);
    assert S[1..][0] == S[1] && S[1..][1] == S[2];
  }

  lemma AllWordsOfThree(S: seq<seq<Word>>)
    requires |S| == 3
    ensures AllWords(S) == Elements(S[0]) + Elements(S[1]) + Elements(S[2])
  {
    assert AllWords(S[1..][1..][1..]) == {};
    assert S[1..][0] == S[1] && S[1..][1..][0] == S[2];
  }

  /** Numbering two sentences: "is" occurs in both and is recorded under 1 and 2. */
  lemma TwoSentencesMap(S: seq<seq<Word>>)
    requires S == [["This", "is", "a"], ["is", "the"]]
    ensures ToMap(MakeFromSentences(S)) == map["This" := [1], "a" := [1], "is" := [1, 2], "the" := [2]]
  {
    var m := map["This" := [1], "a" := [1], "is" := [1, 2], "the" := [2]];
    TwoSentencesWords(S);
    forall w | w in m
      ensures Numbers(S, 1, w) == m[w]
    {
      TwoSentencesNumbers(S, w);
    }
    MakeFromSentencesMap(S, m);
  }

  /** The concordance built from `sentences` is the map the reference lists describe. */
  lemma MakeFromSentencesMap(sentences: seq<seq<Word>>, m: map<Word, Occurrences>)
    requires AllWords(sentences) == m.Keys
    requires forall w | w in m :: Numbers(sentences, 1, w) == m[w]
    ensures ToMap(MakeFromSentences(sentences)) == m
  {
    SameOccurrences(ToMap(MakeFromSentences(sentences)), m);
  }

  lemma SameOccurrences(a: map<Word, Occurrences>, b: map<Word, Occurrences>)
    requires a.Keys == b.Keys
    requires forall w | w in b :: OccurrencesOf(a, w) == b[w]
    ensures a == b
  {
  }

  lemma TwoSentencesWords(S: seq<seq<Word>>)
    requires S == [["This", "is", "a"], ["is", "the"]]
    ensures AllWords(S) == {"This", "a", "is", "the"}
  {
    assert Elements(S[0]) == {"This", "is", "a"} by {
      assert S[0][0] == "This" && S[0][1] == "is" && S[0][2] == "a";
    }
    assert Elements(S[1]) == {"is", "the"} by {
      assert S[1][0] == "is" && S[1][1] == "the";
    }
    assert AllWords(S[1..][1..]) == {};
  }

  lemma TwoSentencesNumbers(S: seq<seq<Word>>, w: Word)
    requires S == [["This", "is", "a"], ["is", "the"]]
    requires w in {"This", "a", "is", "the"}
    ensures Numbers(S, 1, w) == map["This" := [1], "a" := [1], "is" := [1, 2], "the" := [2]][w]
  {
    NumbersOfTwo(S, 1, w);
    assert multiset(S[0]) == multiset{"This", "is", "a"};
    assert multiset(S[1]) == multiset{"is", "the"};
  }

  lemma NumbersOfTwo(S: seq<seq<Word>>, n: Sentence, w: Word)
    requires |S| == 2
    ensures Numbers(S, n, w) == Repeat(multiset(S[0])[w], n) + Repeat(multiset(S[1])[w], n + 1)
  {
    assert Numbers(S[1..][1..], n + 2, w) == [];
  }

  /** Iteration visits the words in code-point order, so the capitalised "This" comes first. */
  lemma TwoSentencesExample(S: seq<seq<Word>>)
    requires S == [["This", "is", "a"], ["is", "the"]]
    ensures ForEachWord(MakeFromSentences(S))
      == [Visit(1, "This", [1]), Visit(2, "a", [1]), Visit(3, "is", [1, 2]), Visit(4, "the", [2])]
  {
    var r := MakeFromSentences(S);
    var e := TwoSentencesEntries();
    TwoSentencesMap(S);
    Canonical(r, e);
    TwoSentencesVisits(r);
  }

  lemma TwoSentencesVisits(r: Concordance)
    requires r == TwoSentencesEntries()
    ensures ForEachWord(r) == [Visit(1, "This", [1]), Visit(2, "a", [1]), Visit(3, "is", [1, 2]), Visit(4, "the", [2])]
  {
    VisitsOfEntries(r, [Visit(1, "This", [1]), Visit(2, "a", [1]), Visit(3, "is", [1, 2]), Visit(4, "the", [2])]);
  }

  lemma VisitsOfEntries(c: Concordance, expected: seq<Visit>)
    requires |expected| == |c|
    requires forall i | 0 <= i < |c| :: expected[i] == Visit(i + 1, c[i].word, c[i].occurrences)
    ensures ForEachWord(c) == expected
  {
  }

  function TwoSentencesEntries(): (e: Concordance)
    ensures e == [Entry("This", [1]), Entry("a", [1]), Entry("is", [1, 2]), Entry("the", [2])]
    ensures ToMap(e) == map["This" := [1], "a" := [1], "is" := [1, 2], "the" := [2]]
  {
    var expected := [Entry("This", [1]), Entry("a", [1]), Entry("is", [1, 2]), Entry("the", [2])];
    FourAscending(expected);
    var e: Concordance := expected;
    WordsOfFour(e);
    ToMapEquals(e, map["This" := [1], "a" := [1], "is" := [1, 2], "the" := [2]]);
    e
  }

  lemma FourAscending(c: seq<Entry>)
    requires |c| == 4
    requires Less(c[0].word, c[1].word) && Less(c[1].word, c[2].word) && Less(c[2].word, c[3].word)
    ensures Ascending(c)
  {
    Transitive(c[0].word, c[1].word, c[2].word);
    Transitive(c[0].word, c[2].word, c[3].word);
    Transitive(c[1].word, c[2].word, c[3].word);
  }

  lemma WordsOfFour(c: seq<Entry>)
    requires |c| == 4
    ensures Words(c) == {c[0].word, c[1].word, c[2].word, c[3].word}
  {
    assert c[0].word in Words(c) && c[1].word in Words(c) && c[2].word in Words(c) && c[3].word in Words(c);
  }
}
