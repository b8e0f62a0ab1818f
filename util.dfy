/** The corpus utilities of common/util.rb that work on word ids:
    `preprocess` (tokenising into a word/id vocabulary), `convert_one_hot`,
    `create_contexts_target` and `reverse_each_row`. `create_co_matrix` is
    in module CoMatrix. */
module Util {
  import opened Outcomes
  import opened Sequences
  import Functions

  // ---------------------------------------------------------------------
  // Tokenising: text.downcase.gsub('.', ' .').split(' ')

  predicate IsUpper(ch: char) {
    'A' <= ch <= 'Z'
  }

  /** `downcase` on one character; only ASCII letters are mapped. */
  function LowerChar(ch: char): (r: char)
    ensures !IsUpper(r)
    ensures IsUpper(ch) ==> r as int == ch as int + 32
    ensures !IsUpper(ch) ==> r == ch
  {
    if IsUpper(ch) then (ch as int + 32) as char else ch
  }

  function Downcase(s: string): (r: string)
    ensures |r| == |s|
    ensures forall i :: 0 <= i < |r| ==> !IsUpper(r[i])
    ensures forall i :: 0 <= i < |r| ==> r[i] == s[i] || (IsUpper(s[i]) && r[i] as int == s[i] as int + 32)
  {
    seq(|s|, i requires 0 <= i < |s| => LowerChar(s[i]))
  }

  /** Lower-casing twice is lower-casing once. */
  lemma DowncaseIdempotent(s: string)
    ensures Downcase(Downcase(s)) == Downcase(s)
  {
    var d := Downcase(s);
    assert forall i :: 0 <= i < |d| ==> LowerChar(d[i]) == d[i];
  }

  /** `s` with every occurrence of `c` removed. */
  function Without(s: string, c: char): (r: string)
    ensures forall i :: 0 <= i < |r| ==> r[i] != c
  {
    if s == [] then []
    else (if s[0] == c then [] else [s[0]]) + Without(s[1..], c)
  }

  lemma {:induction false} WithoutConcat(a: string, b: string, c: char)
    ensures Without(a + b, c) == Without(a, c) + Without(b, c)
    decreases |a|
  {
    if a != [] {
      assert (a + b)[1..] == a[1..] + b;
      WithoutConcat(a[1..], b, c);
    } else {
      assert a + b == b;
    }
  }

  /** `gsub('.', ' .')`: a space in front of every period. Removing the
      spaces again gives back the input with its own spaces removed, and
      every period of the result follows a space. */
  function SpacePeriods(s: string): (r: string)
    ensures Without(r, ' ') == Without(s, ' ')
    ensures forall i :: 0 <= i < |r| && r[i] == '.' ==> i > 0 && r[i - 1] == ' '
    ensures |r| >= |s|
  {
    if s == [] then []
    else
      var head := if s[0] == '.' then " ." else [s[0]];
      var rest := SpacePeriods(s[1..]);
      WithoutConcat(head, rest, ' ');
      assert Without(s, ' ') == Without([s[0]], ' ') + Without(s[1..], ' ') by {
        assert s == [s[0]] + s[1..];
        WithoutConcat([s[0]], s[1..], ' ');
      }
      assert forall i :: 0 <= i < |rest| ==> (head + rest)[|head| + i] == rest[i];
      head + rest
  }

  /** Drops the blank in front of every period: what undoes `SpacePeriods`. */
  function Unspace(r: string): string {
    if r == [] then []
    else if |r| >= 2 && r[0] == ' ' && r[1] == '.' then "." + Unspace(r[2..])
    else [r[0]] + Unspace(r[1..])
  }

  /** The blank `gsub` puts in front of a period is the only change: taking
      it out again gives the text back. */
  lemma {:induction false} SpacePeriodsUnspace(s: string)
    ensures Unspace(SpacePeriods(s)) == s
    decreases |s|
  {
    if s != [] {
      var r := SpacePeriods(s);
      var rest := SpacePeriods(s[1..]);
      SpacePeriodsUnspace(s[1..]);
      if s[0] == '.' {
        assert r == " ." + rest && r[2..] == rest;
      } else {
        assert r == [s[0]] + rest && r[1..] == rest;
        if |r| >= 2 && r[0] == ' ' {
          // A blank of the text is never followed by a period of the
          // result, which always comes with its own blank in front.
          assert rest[0] != '.';
        }
      }
      assert s == [s[0]] + s[1..];
    }
  }

  /** The characters Ruby's `split(' ')` treats as separators. */
  predicate IsSpace(ch: char) {
    ch == ' ' || ch == '\t' || ch == '\n' || ch == '\U{000B}' || ch == '\U{000C}' || ch == '\r'
  }

  predicate NoSpace(s: string) {
    forall i :: 0 <= i < |s| ==> !IsSpace(s[i])
  }

  /** `s` with all separators removed. */
  function Squeeze(s: string): (r: string)
    ensures NoSpace(r)
  {
    if s == [] then []
    else (if IsSpace(s[0]) then [] else [s[0]]) + Squeeze(s[1..])
  }

  function Concat(ts: seq<string>): string {
    if ts == [] then [] else ts[0] + Concat(ts[1..])
  }

  /** The tokens of `s`, `cur` being the part of a token read so far. */
  function SplitFrom(s: string, cur: string): (r: seq<string>)
    requires NoSpace(cur)
    ensures forall k :: 0 <= k < |r| ==> r[k] != [] && NoSpace(r[k])
    ensures Concat(r) == cur + Squeeze(s)
    decreases |s|
  {
    if s == [] then
      if cur == [] then [] else [cur]
    else if IsSpace(s[0]) then
      if cur == [] then SplitFrom(s[1..], [])
      else
        var rest := SplitFrom(s[1..], []);
        assert ([cur] + rest)[1..] == rest;
        [cur] + rest
    else
      var r := SplitFrom(s[1..], cur + [s[0]]);
      assert cur + [s[0]] + Squeeze(s[1..]) == cur + Squeeze(s);
      r
  }

  /** `split(' ')`: maximal runs of non-separators, leading and trailing
      separators ignored. The tokens are non-empty, hold no separator and
      together hold every other character of `s`, in order. */
  function Split(s: string): (r: seq<string>)
    ensures forall k :: 0 <= k < |r| ==> r[k] != [] && NoSpace(r[k])
    ensures Concat(r) == Squeeze(s)
  {
    SplitFrom(s, [])
  }

  /** A separator ends the token being read; what follows is split on its
      own. */
  lemma {:induction false} SplitFromSeparator(a: string, c: char, b: string, cur: string)
    requires IsSpace(c) && NoSpace(cur)
    ensures SplitFrom(a + [c] + b, cur) == SplitFrom(a, cur) + SplitFrom(b, [])
    decreases |a|
  {
    if a == [] {
      assert a + [c] + b == [c] + b && ([c] + b)[1..] == b;
    } else {
      var s := a + [c] + b;
      assert s[0] == a[0] && s[1..] == a[1..] + [c] + b;
      if IsSpace(a[0]) {
        SplitFromSeparator(a[1..], c, b, []);
      } else {
        SplitFromSeparator(a[1..], c, b, cur + [a[0]]);
      }
    }
  }

  /** The tokens are the maximal separator-free runs: a separator splits
      the text in two parts that are split independently... */
  lemma SplitSeparator(a: string, c: char, b: string)
    requires IsSpace(c)
    ensures Split(a + [c] + b) == Split(a) + Split(b)
  {
    SplitFromSeparator(a, c, b, []);
  }

  /** ... and a non-empty run without separators is one token. */
  lemma SplitWord(s: string)
    requires s != [] && NoSpace(s)
    ensures Split(s) == [s]
  {
    SplitFromWord(s, [], []);
    assert s + [] == s && [] + s == s;
  }

  /** Tokens joined with single spaces. */
  function Join(ts: seq<string>): string {
    if ts == [] then []
    else if |ts| == 1 then ts[0]
    else ts[0] + " " + Join(ts[1..])
  }

  lemma {:induction false} SplitFromWord(w: string, s: string, cur: string)
    requires NoSpace(w) && NoSpace(cur)
    ensures NoSpace(cur + w)
    ensures SplitFrom(w + s, cur) == SplitFrom(s, cur + w)
    decreases |w|
  {
    if w == [] {
      assert w + s == s && cur + w == cur;
    } else {
      assert (w + s)[0] == w[0] && (w + s)[1..] == w[1..] + s;
      SplitFromWord(w[1..], s, cur + [w[0]]);
      assert cur + [w[0]] + w[1..] == cur + w;
    }
  }

  lemma {:induction false} SplitFromJoin(ts: seq<string>, cur: string)
    requires ts != [] && forall k :: 0 <= k < |ts| ==> ts[k] != [] && NoSpace(ts[k])
    requires NoSpace(cur)
    ensures SplitFrom(Join(ts), cur) == [cur + ts[0]] + ts[1..]
    decreases |ts|
  {
    if |ts| == 1 {
      SplitFromWord(ts[0], [], cur);
      assert Join(ts) == ts[0] + [];
    } else {
      var rest := Join(ts[1..]);
      assert Join(ts) == ts[0] + (" " + rest);
      SplitFromWord(ts[0], " " + rest, cur);
      assert (" " + rest)[1..] == rest;
      SplitFromJoin(ts[1..], []);
      assert [] + ts[1][..] == ts[1];
      assert [ts[1]] + ts[1..][1..] == ts[1..];
    }
  }

  /** Splitting tokens joined by spaces gives the tokens back. */
  lemma SplitJoin(ts: seq<string>)
    requires forall k :: 0 <= k < |ts| ==> ts[k] != [] && NoSpace(ts[k])
    ensures Split(Join(ts)) == ts
  {
    if ts != [] {
      SplitFromJoin(ts, []);
      assert [] + ts[0] == ts[0];
      assert [ts[0]] + ts[1..] == ts;
    }
  }

  /** The words `preprocess` reads from `text`. */
  function Words(text: string): (r: seq<string>)
    ensures forall k :: 0 <= k < |r| ==> r[k] != [] && NoSpace(r[k])
  {
    Split(SpacePeriods(Downcase(text)))
  }

  // ---------------------------------------------------------------------
  // preprocess: the vocabulary

  /** `word_to_id` for a vocabulary listed in order of first occurrence. */
  function WordIds(vocab: seq<string>): (r: map<string, nat>)
    ensures forall w :: w in r <==> w in vocab
  {
    map w | w in vocab :: IndexOf(vocab, w)
  }

  /** `id_to_word` for the same vocabulary. */
  function IdWords(vocab: seq<string>): (r: map<nat, string>)
    ensures forall i: nat :: i in r <==> i < |vocab|
  {
    map i: nat | i < |vocab| :: vocab[i]
  }

  /** Appending a new word gives it the next id and keeps all others. */
  lemma VocabSnoc(vocab: seq<string>, w: string)
    requires w !in vocab
    ensures WordIds(vocab + [w]) == WordIds(vocab)[w := |vocab|]
    ensures IdWords(vocab + [w]) == IdWords(vocab)[|vocab| := w]
  {
    var v := vocab + [w];
    forall x | x in vocab
      ensures IndexOf(v, x) == IndexOf(vocab, x)
    {
      var k := IndexOf(vocab, x);
      assert v[k] == x;
    }
    assert IndexOf(v, w) == |vocab| by {
      assert v[|vocab|] == w;
    }
  }

  /** `words.map { |w| word_to_id[w] }`. */
  function Encode(wordToId: map<string, nat>, words: seq<string>): (r: seq<nat>)
    requires forall k :: 0 <= k < |words| ==> words[k] in wordToId
    ensures |r| == |words|
  {
    seq(|words|, k requires 0 <= k < |words| => wordToId[words[k]])
  }

  /** Every word has an id. */
  lemma WordsKnown(words: seq<string>)
    ensures forall k :: 0 <= k < |words| ==> words[k] in WordIds(Distinct(words))
  {
  }

  /** The corpus: the id of every word. */
  function Corpus(words: seq<string>): (r: seq<nat>)
    ensures |r| == |words|
  {
    WordsKnown(words);
    Encode(WordIds(Distinct(words)), words)
  }

  /** Reading the corpus back through `id_to_word` gives the words. */
  lemma CorpusDecodes(words: seq<string>)
    ensures forall k :: 0 <= k < |words| ==>
      Corpus(words)[k] in IdWords(Distinct(words)) && IdWords(Distinct(words))[Corpus(words)[k]] == words[k]
  {
    var vocab := Distinct(words);
    forall k | 0 <= k < |words|
      ensures Corpus(words)[k] in IdWords(vocab) && IdWords(vocab)[Corpus(words)[k]] == words[k]
    {
      var i := IndexOf(vocab, words[k]);
      assert Corpus(words)[k] == i;
    }
  }

  /** The two hashes are mutual inverses and the ids are exactly `0 ... n`. */
  lemma VocabInverse(vocab: seq<string>)
    requires NoDuplicates(vocab)
    ensures forall w :: w in WordIds(vocab) ==> WordIds(vocab)[w] in IdWords(vocab) && IdWords(vocab)[WordIds(vocab)[w]] == w
    ensures forall i :: i in IdWords(vocab) ==> IdWords(vocab)[i] in WordIds(vocab) && WordIds(vocab)[IdWords(vocab)[i]] == i
  {
    forall i | 0 <= i < |vocab|
      ensures IndexOf(vocab, vocab[i]) == i
    {
      IndexOfUnique(vocab, i);
    }
  }

  /** The two hashes `preprocess` fills. */
  datatype Vocab = Vocab(wordToId: map<string, nat>, idToWord: map<nat, string>)

  /** The hashes after reading `words` front to back, as the loop of
      `preprocess` fills them. */
  function Scan(words: seq<string>): (r: Vocab)
    ensures |r.wordToId| <= |words|
    decreases |words|
  {
    if words == [] then Vocab(map[], map[])
    else
      var v := Scan(words[..|words| - 1]);
      var w := words[|words| - 1];
      if w in v.wordToId then v
      else Vocab(v.wordToId[w := |v.wordToId|], v.idToWord[|v.wordToId| := w])
  }

  /** The scan numbers the distinct words in order of first occurrence. */
  lemma {:induction false} ScanNumbersDistinct(words: seq<string>)
    ensures Scan(words) == Vocab(WordIds(Distinct(words)), IdWords(Distinct(words)))
    ensures |Scan(words).wordToId| == |Distinct(words)|
    decreases |words|
  {
    if words != [] {
      var init := words[..|words| - 1];
      var w := words[|words| - 1];
      ScanNumbersDistinct(init);
      assert words == init + [w];
      DistinctSnoc(init, w);
      if w !in Distinct(init) {
        VocabSnoc(Distinct(init), w);
      }
    }
  }

  /** `preprocess(text)`: the corpus of word ids and the two hashes. A word
      not seen before gets id `word_to_id.length`; `id_to_word` maps the ids
      `0 ... word_to_id.length` back to the words, and the corpus holds the
      id of every word. */
  method Preprocess(text: string) returns (corpus: seq<nat>, wordToId: map<string, nat>, idToWord: map<nat, string>)
    ensures wordToId == WordIds(Distinct(Words(text)))
    ensures idToWord == IdWords(Distinct(Words(text)))
    ensures corpus == Corpus(Words(text))
  {
    var words := Words(text);
    wordToId := map[];
    idToWord := map[];
    var k := 0;
    while k < |words|
      invariant k <= |words|
      invariant Vocab(wordToId, idToWord) == Scan(words[..k])
    {
      var word := words[k];
      assert words[..k + 1][..k] == words[..k];
      if word !in wordToId {
        var newId := |wordToId|;
        wordToId := wordToId[word := newId];
        idToWord := idToWord[newId := word];
      }
      k := k + 1;
    }
    assert words[..k] == words;
    ScanNumbersDistinct(words);
    WordsKnown(words);
    corpus := Encode(wordToId, words);
  }

  /** A word met for the first time at position `k` gets the number of
      distinct words before it as its id. */
  lemma PreprocessNewWord(words: seq<string>, k: nat)
    requires k < |words| && words[k] !in words[..k]
    ensures words[k] in WordIds(Distinct(words))
    ensures WordIds(Distinct(words))[words[k]] == |Distinct(words[..k])|
  {
    var vocab, before := Distinct(words), Distinct(words[..k]);
    DistinctNewAt(words, k);
    IndexOfUnique(vocab, |before|);
    assert WordIds(vocab)[words[k]] == IndexOf(vocab, words[k]);
  }

  /** A repeated word gets the id of its first occurrence. */
  lemma PreprocessRepeatedWord(words: seq<string>, k: nat)
    requires k < |words| && words[k] in words[..k]
    ensures words[k] in WordIds(Distinct(words))
    ensures IndexOf(words, words[k]) < k
    ensures WordIds(Distinct(words))[words[k]] == WordIds(Distinct(words))[words[IndexOf(words, words[k])]]
  {
    var j :| 0 <= j < k && words[..k][j] == words[k];
    assert words[j] == words[k];
  }

  /** Ids follow the order of first occurrence: a word met for the first
      time at position `k` gets the number of distinct words before it, and
      a repeated word the id it got at its first occurrence. */
  lemma PreprocessFirstOccurrence(words: seq<string>, k: nat)
    requires k < |words|
    ensures words[k] in WordIds(Distinct(words))
    ensures words[k] !in words[..k] ==> WordIds(Distinct(words))[words[k]] == |Distinct(words[..k])|
    ensures words[k] in words[..k] ==>
      WordIds(Distinct(words))[words[k]] == WordIds(Distinct(words))[words[IndexOf(words, words[k])]] &&
      IndexOf(words, words[k]) < k
  {
    if words[k] !in words[..k] {
      PreprocessNewWord(words, k);
    } else {
      PreprocessRepeatedWord(words, k);
    }
  }

  // ---------------------------------------------------------------------
  // convert_one_hot

  /** A corpus as Numo sees it: a vector of ids, a matrix of ids with
      `cols` columns, or an array of any other rank. */
  datatype CorpusArray = Vector(ids: seq<int>) | Grid(rows: seq<seq<int>>, cols: nat) | OtherRank

  /** The UInt32 array `convert_one_hot` returns, or `nil` for a corpus of
      any other rank. */
  datatype OneHot = Nil | Matrix(m: array2<nat>) | Cube(c: array3<nat>)

  /** The one-hot row of `col`: a 1 at `col`, 0 elsewhere. */
  function OneHotRow(vocabSize: nat, col: nat): (r: seq<nat>)
    ensures |r| == vocabSize
  {
    seq(vocabSize, j => if j == col then 1 else 0)
  }

  /** A one-hot row sums to 1 and `argmax` decodes it back to its column. */
  lemma OneHotRowDecodes(vocabSize: nat, col: nat)
    requires col < vocabSize
    ensures Sum(vocabSize, (j: nat) => if j < vocabSize then OneHotRow(vocabSize, col)[j] else 0) == 1
    ensures Functions.FirstMax(OneHotRow(vocabSize, col)) == col
  {
    var row := OneHotRow(vocabSize, col);
    SumIndicator(vocabSize, col, (j: nat) => 1, (j: nat) => if j < vocabSize then row[j] else 0);
    var k := Functions.FirstMax(row);
    assert row[col] == 1;
  }

  predicate AllIn(n: nat, ids: seq<int>) {
    forall k :: 0 <= k < |ids| ==> Functions.NormIndex(n, ids[k]).Some?
  }

  /** `convert_one_hot(corpus, vocab_size)`. Row `idx` of a vector corpus
      becomes the one-hot row of its id, cell `(idx0, idx1)` of a matrix
      corpus the one-hot row of that id; negative ids count from the end of
      the vocabulary as Numo indices do, and an id outside `-vocab_size ...
      vocab_size` raises IndexError. */
  method ConvertOneHot(corpus: CorpusArray, vocabSize: nat) returns (r: Result<OneHot, Failure>)
    requires corpus.Grid? ==> forall i :: 0 <= i < |corpus.rows| ==> |corpus.rows[i]| == corpus.cols
    ensures corpus.OtherRank? ==> r == Ok(Nil)
    ensures corpus.Vector? ==> (r.Err? <==> !AllIn(vocabSize, corpus.ids))
    ensures corpus.Grid? ==> (r.Err? <==> exists i :: 0 <= i < |corpus.rows| && !AllIn(vocabSize, corpus.rows[i]))
    ensures r.Err? ==> r.error == IndexError
    ensures r.Ok? && corpus.Vector? ==>
      && r.value.Matrix? && fresh(r.value.m)
      && r.value.m.Length0 == |corpus.ids| && r.value.m.Length1 == vocabSize
      && forall i, j :: 0 <= i < |corpus.ids| && 0 <= j < vocabSize ==>
           r.value.m[i, j] == OneHotRow(vocabSize, Functions.NormIndex(vocabSize, corpus.ids[i]).value)[j]
    ensures r.Ok? && corpus.Grid? ==>
      && r.value.Cube? && fresh(r.value.c)
      && r.value.c.Length0 == |corpus.rows| && r.value.c.Length1 == corpus.cols && r.value.c.Length2 == vocabSize
      && forall i, j, k :: 0 <= i < |corpus.rows| && 0 <= j < corpus.cols && 0 <= k < vocabSize ==>
           r.value.c[i, j, k] == OneHotRow(vocabSize, Functions.NormIndex(vocabSize, corpus.rows[i][j]).value)[k]
  {
    match corpus
    case OtherRank =>
      return Ok(Nil);
    case Vector(ids) =>
      var n := |ids|;
      var m := new nat[n, vocabSize]((i, j) => 0);
      var idx := 0;
      while idx < n
        invariant idx <= n
        invariant AllIn(vocabSize, ids[..idx])
        invariant forall i, j :: 0 <= i < n && 0 <= j < vocabSize ==>
          m[i, j] == if i < idx && Functions.NormIndex(vocabSize, ids[i]) == Some(j) then 1 else 0
      {
        var col := Functions.NormIndex(vocabSize, ids[idx]);
        if col.None? {
          assert !AllIn(vocabSize, ids);
          return Err(IndexError);
        }
        assert ids[..idx + 1][..idx] == ids[..idx];
        m[idx, col.value] := 1;
        idx := idx + 1;
      }
      assert ids[..idx] == ids;
      return Ok(Matrix(m));
    case Grid(rows, c) =>
      var n := |rows|;
      var cube := new nat[n, c, vocabSize]((i, j, k) => 0);
      var idx0 := 0;
      while idx0 < n
        invariant idx0 <= n
        invariant forall i :: 0 <= i < idx0 ==> AllIn(vocabSize, rows[i])
        invariant forall i, j, k :: 0 <= i < n && 0 <= j < c && 0 <= k < vocabSize ==>
          cube[i, j, k] == if i < idx0 && Functions.NormIndex(vocabSize, rows[i][j]) == Some(k) then 1 else 0
      {
        var wordIds := rows[idx0];
        var idx1 := 0;
        while idx1 < c
          invariant idx1 <= c
          invariant AllIn(vocabSize, wordIds[..idx1])
          invariant forall i, j, k :: 0 <= i < n && 0 <= j < c && 0 <= k < vocabSize ==>
            cube[i, j, k] == if (i < idx0 || (i == idx0 && j < idx1)) && Functions.NormIndex(vocabSize, rows[i][j]) == Some(k) then 1 else 0
        {
          var col := Functions.NormIndex(vocabSize, wordIds[idx1]);
          if col.None? {
            assert !AllIn(vocabSize, rows[idx0]);
            return Err(IndexError);
          }
          assert wordIds[..idx1 + 1][..idx1] == wordIds[..idx1];
          cube[idx0, idx1, col.value] := 1;
          idx1 := idx1 + 1;
        }
        assert wordIds[..idx1] == wordIds;
        idx0 := idx0 + 1;
      }
      return Ok(Cube(cube));
  }

  // ---------------------------------------------------------------------
  // create_contexts_target

  datatype ContextsTarget = ContextsTarget(contexts: seq<seq<nat>>, target: seq<nat>)

  /** The `window` words on either side of position `idx`, without the word
      at `idx` itself. */
  function Surrounding(corpus: seq<nat>, idx: nat, window: nat): (r: seq<nat>)
    requires window <= idx && idx + window < |corpus|
    ensures |r| == 2 * window
  {
    corpus[idx - window..idx] + corpus[idx + 1..idx + window + 1]
  }

  /** One row of contexts: `corpus[idx + t]` for `t` from `-window` to
      `window`, skipping `t == 0`. */
  method ContextRow(corpus: seq<nat>, idx: nat, window: nat) returns (cs: seq<nat>)
    requires window <= idx && idx + window < |corpus|
    ensures cs == Surrounding(corpus, idx, window)
  {
    cs := [];
    var t: int := 0 - window;
    while t <= window
      invariant 0 - window <= t <= window + 1
      invariant cs == if t <= 0 then corpus[idx - window..idx + t] else corpus[idx - window..idx] + corpus[idx + 1..idx + t]
    {
      if t != 0 {
        if t < 0 {
          assert corpus[idx - window..idx + t + 1] == corpus[idx - window..idx + t] + [corpus[idx + t]];
        } else {
          assert corpus[idx + 1..idx + t + 1] == corpus[idx + 1..idx + t] + [corpus[idx + t]];
        }
        cs := cs + [corpus[idx + t]];
      }
      t := t + 1;
    }
  }

  /** `s[lo...hi]` on a Numo array: a negative end counts from the end, the
      excluded end is stepped back by one, and RangeError is raised when
      either end then lies outside the array; an end before the start
      selects nothing. */
  function NumoSlice(s: seq<nat>, lo: int, hi: int): (r: Result<seq<nat>, Failure>)
    ensures r.Err? ==> r.error == RangeError
    ensures r.Ok? <==>
      var beg, last := (if lo < 0 then lo + |s| else lo), (if hi < 0 then hi + |s| else hi) - 1;
      0 <= beg < |s| && 0 <= last < |s|
    ensures r.Ok? ==>
      var beg, last := (if lo < 0 then lo + |s| else lo), (if hi < 0 then hi + |s| else hi) - 1;
      |r.value| == (if last < beg then 0 else last - beg + 1) &&
      forall k :: 0 <= k < |r.value| ==> r.value[k] == s[beg + k]
  {
    var beg := if lo < 0 then lo + |s| else lo;
    var last := (if hi < 0 then hi + |s| else hi) - 1;
    if beg < 0 || beg >= |s| || last < 0 || last >= |s| then Err(RangeError)
    else if last < beg then Ok([])
    else Ok(s[beg..last + 1])
  }

  /** `create_contexts_target(corpus, window_size:)` on the Numo corpus that
      `preprocess` returns. The targets `corpus[window...-window]` raise
      RangeError for a window of 0 (the end `-0` is `0`, stepped back to
      `-1`) and for a corpus no longer than the window. Row `k` of the
      contexts surrounds position `k + window`; with no context row at all,
      `contexts[0].length` is a call on nil. */
  method CreateContextsTarget(corpus: seq<nat>, window: nat) returns (r: Result<ContextsTarget, Failure>)
    ensures r == Err(RangeError) <==> window == 0 || |corpus| <= window
    ensures r == Err(NoMethodError) <==> 0 < window < |corpus| <= 2 * window
    ensures r.Ok? <==> 0 < window && 2 * window < |corpus|
    ensures r.Ok? ==> |r.value.contexts| == |corpus| - 2 * window
    ensures r.Ok? ==> forall k :: 0 <= k < |r.value.contexts| ==>
      (|r.value.contexts[k]| == 2 * window &&
       r.value.contexts[k] == corpus[k..k + window] + corpus[k + window + 1..k + 2 * window + 1])
    ensures r.Ok? ==> r.value.target == corpus[window..|corpus| - window]
    ensures r.Ok? ==> |r.value.target| == |r.value.contexts|
  {
    var target := NumoSlice(corpus, window, 0 - window);
    if target.Err? {
      return Err(target.error);
    }
    var contexts: seq<seq<nat>> := [];
    var idx := window;
    while idx < |corpus| - window
      invariant window <= idx
      invariant idx == window || idx + window <= |corpus|
      invariant |contexts| == idx - window
      invariant forall k :: 0 <= k < |contexts| ==> contexts[k] == Surrounding(corpus, k + window, window)
    {
      var cs := ContextRow(corpus, idx, window);
      contexts := contexts + [cs];
      idx := idx + 1;
    }
    if contexts == [] {
      return Err(NoMethodError);
    }
    assert target.value == corpus[window..|corpus| - window];
    return Ok(ContextsTarget(contexts, target.value));
  }

  /** For a window of at least 1, every target sits in the middle of its
      context row: the row's two halves around the target are the corpus
      stretch centred on it. */
  lemma ContextsSurroundTarget(corpus: seq<nat>, window: nat, contexts: seq<seq<nat>>, k: nat)
    requires window > 0 && |corpus| > 2 * window
    requires |contexts| == |corpus| - 2 * window
    requires forall i :: 0 <= i < |contexts| ==>
      (|contexts[i]| == 2 * window && contexts[i] == corpus[i..i + window] + corpus[i + window + 1..i + 2 * window + 1])
    requires k < |contexts|
    ensures contexts[k][..window] + [corpus[window..|corpus| - window][k]] + contexts[k][window..] == corpus[k..k + 2 * window + 1]
  {
    var row := contexts[k];
    assert row[..window] == corpus[k..k + window];
    assert row[window..] == corpus[k + window + 1..k + 2 * window + 1];
    assert corpus[window..|corpus| - window][k] == corpus[k + window];
    assert corpus[k..k + 2 * window + 1] == corpus[k..k + window] + [corpus[k + window]] + corpus[k + window + 1..k + 2 * window + 1];
  }

  // ---------------------------------------------------------------------
  // reverse_each_row

  function Reverse<T>(s: seq<T>): (r: seq<T>)
    ensures |r| == |s|
    ensures forall i :: 0 <= i < |s| ==> r[i] == s[|s| - 1 - i]
  {
    if s == [] then [] else Reverse(s[1..]) + [s[0]]
  }

  /** `reverse_each_row(x)`: every row reversed, the shape kept. */
  function ReverseEachRow<T>(x: seq<seq<T>>): (r: seq<seq<T>>)
    ensures |r| == |x|
    ensures forall i :: 0 <= i < |x| ==> |r[i]| == |x[i]|
    ensures forall i, j :: 0 <= i < |x| && 0 <= j < |x[i]| ==> r[i][j] == x[i][|x[i]| - 1 - j]
  {
    seq(|x|, i requires 0 <= i < |x| => Reverse(x[i]))
  }

  /** Reversing every row twice gives the matrix back. */
  lemma ReverseEachRowInvolution<T>(x: seq<seq<T>>)
    ensures ReverseEachRow(ReverseEachRow(x)) == x
  {
    var y := ReverseEachRow(ReverseEachRow(x));
    forall i | 0 <= i < |x|
      ensures y[i] == x[i]
    {
      assert |y[i]| == |x[i]|;
    }
  }
}
