/**
 * The word-count list of hw-list: an association list from words to the
 * number of times each was seen, with `len_words`, `find_word`, `add_word`
 * and `wordcount_sort`. The list's mutex only serialises these operations and
 * is left out. A `word_count_t*` into the list is modelled as the entry's
 * position in it.
 */
module WordCount {
  import opened Wrappers

  /** `word_count_t`: a word and how many times it was added. */
  datatype WordCount = WordCount(word: string, count: nat)

  /** No word occurs in two entries: the invariant `add_word` keeps. */
  ghost predicate DistinctWords(s: seq<WordCount>)
  {
    forall i, j :: 0 <= i < j < |s| ==> s[i].word != s[j].word
  }

  /** No entry of `s` is for `word`. */
  ghost predicate Absent(s: seq<WordCount>, word: string)
  {
    forall k :: 0 <= k < |s| ==> s[k].word != word
  }

  /** The position of the first entry for `word`, or None: what `find_word` finds. */
  function IndexOf(s: seq<WordCount>, word: string): (r: Option<nat>)
    ensures r.Some? ==> r.value < |s| && s[r.value].word == word && forall k :: 0 <= k < r.value ==> s[k].word != word
    ensures r.None? <==> Absent(s, word)
  {
    if s == [] then None
    else if s[0].word == word then Some(0)
    else
      match IndexOf(s[1..], word)
      case None => None
      case Some(i) => Some(i + 1)
  }

  /** The count recorded for `word`, zero when it has no entry. */
  function CountOf(s: seq<WordCount>, word: string): nat
  {
    match IndexOf(s, word)
    case Some(i) => s[i].count
    case None => 0
  }

  /**
   * The list after a successful `add_word`: the entry for `word` counts one
   * more, or a new entry with count 1 is pushed at the front.
   */
  function Added(s: seq<WordCount>, word: string): (t: seq<WordCount>)
    ensures |t| == if Absent(s, word) then |s| + 1 else |s|
    ensures !Absent(t, word)
  {
    match IndexOf(s, word)
    case Some(i) =>
      var t := s[i := s[i].(count := s[i].count + 1)];
      assert t[i].word == word;
      t
    case None =>
      var t := [WordCount(word, 1)] + s;
      assert t[0].word == word;
      t
  }

  /**
   * Adding a word increments its count by exactly one and leaves every other
   * word's count alone.
   */
  lemma AddedCounts(s: seq<WordCount>, word: string, other: string)
    ensures CountOf(Added(s, word), word) == CountOf(s, word) + 1
    ensures other != word ==> CountOf(Added(s, word), other) == CountOf(s, other)
  {
    var t := Added(s, word);
    match IndexOf(s, word)
    case Some(i) =>
      IndexOfUnchangedWords(s, t, word);
      IndexOfUnchangedWords(s, t, other);
    case None =>
      assert t[1..] == s;
      assert IndexOf(t, word) == Some(0);
      if other != word {
        match IndexOf(s, other)
        case Some(j) => assert IndexOf(t, other) == Some(j + 1);
        case None => assert IndexOf(t, other) == None;
      }
  }

  /** Lists with the same words at the same positions find every word at the same place. */
  lemma {:induction false} IndexOfUnchangedWords(s: seq<WordCount>, t: seq<WordCount>, word: string)
    requires |s| == |t| && forall k :: 0 <= k < |s| ==> s[k].word == t[k].word
    ensures IndexOf(s, word) == IndexOf(t, word)
  {
    if s != [] && s[0].word != word {
      IndexOfUnchangedWords(s[1..], t[1..], word);
    }
  }

  /**
   * `add_word` keeps the words pairwise distinct, because it looks the word up
   * before it inserts; the list grows by one exactly when the word was new.
   */
  lemma AddedKeepsDistinct(s: seq<WordCount>, word: string)
    requires DistinctWords(s)
    ensures DistinctWords(Added(s, word))
    ensures |Added(s, word)| == if IndexOf(s, word).Some? then |s| else |s| + 1
    ensures IndexOf(s, word).Some? ==> forall k :: 0 <= k < |s| && k != IndexOf(s, word).value ==> Added(s, word)[k] == s[k]
    ensures IndexOf(s, word).None? ==> Added(s, word) == [WordCount(word, 1)] + s
  {
    var t := Added(s, word);
    if IndexOf(s, word).None? {
      forall i, j | 0 <= i < j < |t| ensures t[i].word != t[j].word {
        if i == 0 {
          assert t[j] == s[j - 1];
        } else {
          assert t[i] == s[i - 1] && t[j] == s[j - 1];
        }
      }
    }
  }

  /** `less` never holds both ways round, as every comparator handed to the sort does. */
  ghost predicate Asymmetric(less: (WordCount, WordCount) -> bool)
  {
    forall x, y :: less(x, y) ==> !less(y, x)
  }

  /** Ordered by `less`: no entry is less than the one before it. */
  ghost predicate SortedBy(s: seq<WordCount>, less: (WordCount, WordCount) -> bool)
  {
    forall i :: 0 < i < |s| ==> !less(s[i], s[i - 1])
  }

  /** `x` placed before the first entry it is less than. */
  function Insert(x: WordCount, s: seq<WordCount>, less: (WordCount, WordCount) -> bool): seq<WordCount>
  {
    if s == [] then [x]
    else if less(x, s[0]) then [x] + s
    else [s[0]] + Insert(x, s[1..], less)
  }

  /** Insertion sort: Pintos's `list_sort` is not part of this model, only its result is. */
  function Sort(s: seq<WordCount>, less: (WordCount, WordCount) -> bool): (t: seq<WordCount>)
    ensures multiset(t) == multiset(s)
  {
    if s == [] then []
    else
      var rest := Sort(s[1..], less);
      InsertSpec(s[0], rest, less);
      assert s == [s[0]] + s[1..];
      Insert(s[0], rest, less)
  }

  lemma {:induction false} InsertSpec(x: WordCount, s: seq<WordCount>, less: (WordCount, WordCount) -> bool)
    ensures multiset(Insert(x, s, less)) == multiset(s) + multiset{x}
    ensures Insert(x, s, less)[0] == x || (s != [] && Insert(x, s, less)[0] == s[0])
    ensures Asymmetric(less) && SortedBy(s, less) ==> SortedBy(Insert(x, s, less), less)
  {
    if s != [] && !less(x, s[0]) {
      var t := Insert(x, s[1..], less);
      InsertSpec(x, s[1..], less);
      assert s == [s[0]] + s[1..];
      if Asymmetric(less) && SortedBy(s, less) {
        assert SortedBy(s[1..], less) by {
          forall i | 0 < i < |s[1..]| ensures !less(s[1..][i], s[1..][i - 1]) {
            assert s[1..][i] == s[i + 1] && s[1..][i - 1] == s[i];
          }
        }
        var u := [s[0]] + t;
        forall i | 0 < i < |u| ensures !less(u[i], u[i - 1]) {
          if i > 1 {
            assert u[i] == t[i - 1] && u[i - 1] == t[i - 2];
          }
        }
      }
    }
  }

  /** Dropping the first entry keeps the words distinct. */
  lemma DistinctTail(s: seq<WordCount>)
    requires s != [] && DistinctWords(s)
    ensures DistinctWords(s[1..]) && Absent(s[1..], s[0].word)
  {
    forall i, j | 0 <= i < j < |s[1..]| ensures s[1..][i].word != s[1..][j].word {
      assert s[1..][i] == s[i + 1] && s[1..][j] == s[j + 1];
    }
    forall k | 0 <= k < |s[1..]| ensures s[1..][k].word != s[0].word {
      assert s[1..][k] == s[k + 1];
    }
  }

  /** Words distinct in `s` and new in `x` stay distinct after the insertion. */
  lemma {:induction false} InsertKeepsDistinct(x: WordCount, s: seq<WordCount>, less: (WordCount, WordCount) -> bool)
    requires DistinctWords(s) && Absent(s, x.word)
    ensures DistinctWords(Insert(x, s, less))
  {
    if s != [] {
      DistinctTail(s);
      if !less(x, s[0]) {
        var t := Insert(x, s[1..], less);
        InsertKeepsDistinct(x, s[1..], less);
        InsertSpec(x, s[1..], less);
        forall k | 0 <= k < |t| ensures t[k].word != s[0].word {
          assert t[k] in multiset(t);
          if t[k] != x {
            assert t[k] in multiset(s[1..]);
            var m :| 0 <= m < |s[1..]| && s[1..][m] == t[k];
          }
        }
        var u := [s[0]] + t;
        forall i, j | 0 <= i < j < |u| ensures u[i].word != u[j].word {
          if i > 0 {
            assert u[i] == t[i - 1] && u[j] == t[j - 1];
          } else {
            assert u[j] == t[j - 1];
          }
        }
      } else {
        var u := [x] + s;
        forall i, j | 0 <= i < j < |u| ensures u[i].word != u[j].word {
          if i > 0 {
            assert u[i] == s[i - 1] && u[j] == s[j - 1];
          } else {
            assert u[j] == s[j - 1];
          }
        }
      }
    }
  }

  /**
   * `wordcount_sort`'s result: a permutation of the list, ordered by `less`,
   * whose words are still pairwise distinct.
   */
  lemma {:induction false} SortSpec(s: seq<WordCount>, less: (WordCount, WordCount) -> bool)
    ensures multiset(Sort(s, less)) == multiset(s)
    ensures Asymmetric(less) ==> SortedBy(Sort(s, less), less)
    ensures DistinctWords(s) ==> DistinctWords(Sort(s, less))
  {
    if s != [] {
      SortSpec(s[1..], less);
      var rest := Sort(s[1..], less);
      InsertSpec(s[0], rest, less);
      assert s == [s[0]] + s[1..];
      if DistinctWords(s) {
        DistinctTail(s);
        forall k | 0 <= k < |rest| ensures rest[k].word != s[0].word {
          assert rest[k] in multiset(s[1..]);
          var m :| 0 <= m < |s[1..]| && s[1..][m] == rest[k];
          assert s[m + 1] == rest[k];
        }
        InsertKeepsDistinct(s[0], rest, less);
      }
    }
  }

  /** `word_count_list_t`: the list, most recently added new word first. */
  class WordCountList {
    var lst: seq<WordCount>

    ghost predicate Valid()
      reads this
    {
      DistinctWords(lst)
    }

    /** `init_words`: an empty list. */
    constructor ()
      ensures Valid() && lst == []
    {
      lst := [];
    }

    /** `len_words`: counts the entries by walking the list; the list is not changed. */
    method LenWords() returns (count: nat)
      ensures count == |lst|
    {
      count := 0;
      var p := lst;
      while p != []
        invariant count + |p| == |lst|
      {
        count := count + 1;
        p := p[1..];
      }
    }

    /** `find_word`: the first entry whose word equals `word`, or NULL. */
    method FindWord(word: string) returns (r: Option<nat>)
      ensures r == IndexOf(lst, word)
    {
      var k := 0;
      while k < |lst|
        invariant 0 <= k <= |lst|
        invariant IndexOf(lst[k..], word) == match IndexOf(lst, word) case Some(i) => Some(i - k) case None => None
        invariant forall j :: 0 <= j < k ==> lst[j].word != word
      {
        if lst[k].word == word {
          return Some(k);
        }
        assert lst[k..][1..] == lst[k + 1..];
        k := k + 1;
      }
      assert lst[k..] == [];
      return None;
    }

    /**
     * `add_word`: counts one more occurrence of `word`. When the word is new
     * and the allocation of its entry fails (`allocOk` is false), returns NULL
     * and leaves the list unchanged.
     */
    method AddWord(word: string, allocOk: bool) returns (r: Option<nat>)
      requires Valid()
      modifies this
      ensures Valid()
      ensures r.None? <==> IndexOf(old(lst), word).None? && !allocOk
      ensures r.None? ==> lst == old(lst)
      ensures r.Some? ==> lst == Added(old(lst), word) && r == IndexOf(lst, word)
    {
      r := FindWord(word);
      AddedKeepsDistinct(lst, word);
      if r.Some? {
        var i := r.value;
        lst := lst[i := lst[i].(count := lst[i].count + 1)];
        IndexOfUnchangedWords(old(lst), lst, word);
      } else {
        if !allocOk {
          return None;
        }
        lst := [WordCount(word, 1)] + lst;
        r := Some(0);
      }
    }

    /** `wordcount_sort`: reorders the list by `less`. */
    method WordCountSort(less: (WordCount, WordCount) -> bool)
      requires Valid() && Asymmetric(less)
      modifies this
      ensures Valid() && lst == Sort(old(lst), less)
      ensures multiset(lst) == multiset(old(lst)) && SortedBy(lst, less)
    {
      SortSpec(lst, less);
      lst := Sort(lst, less);
    }
  }
}
