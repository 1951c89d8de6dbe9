/** The repository's own examples, restated over the model: the matrices of
    the diagonal, normalisation, term-frequency and document-frequency tests,
    and the two-document count example. Word extraction takes its word class
    as a parameter, so the count example holds for every class that keeps the
    letters of the documents and drops their commas, full stops and spaces. */
module Scenarios {
  import opened Arrays
  import opened Outcomes
  import opened Tokenization
  import opened CountVectorization
  import opened NdarrayExtension
  import opened TfidfVectorization
  import opened ExampleWords

  /** With the n-gram range 1..2, three words give the three words
      themselves and then the two adjacent pairs, joined by a space. */
  lemma BigramExample(letterCase: string)
    ensures WordNgrams(Tokenizer(1, 2, letterCase), ["apple", "banana", "orange"])
      == ["apple", "banana", "orange", "apple banana", "banana orange"]
  {
    var ws := ["apple", "banana", "orange"];
    assert Join(ws[0..1]) == "apple" && Join(ws[1..2]) == "banana" && Join(ws[2..3]) == "orange";
    assert Join(ws[0..2]) == "apple banana" by { assert ws[0..2][1..] == ["banana"]; }
    assert Join(ws[1..3]) == "banana orange" by { assert ws[1..3][1..] == ["orange"]; }
    assert Windows(ws, 1) == ["apple", "banana", "orange"];
    assert Windows(ws, 2) == ["apple banana", "banana orange"];
  }

  /** The diagonal test: a vector of weights becomes the matrix with the
      weights on its diagonal. */
  lemma DiagonalExample()
    ensures Vec2Diagonal([0.5, 0.25, 0.25]) == [[0.5, 0.0, 0.0], [0.0, 0.25, 0.0], [0.0, 0.0, 0.25]]
  {
    var m := Vec2Diagonal([0.5, 0.25, 0.25]);
    assert m[0] == [0.5, 0.0, 0.0];
    assert m[1] == [0.0, 0.25, 0.0];
    assert m[2] == [0.0, 0.0, 0.25];
  }

  lemma RowSum3(row: seq<real>)
    requires |row| == 3
    ensures RealSum(row) == row[0] + row[1] + row[2]
  {
    assert RealSum(row[2..]) == row[2] + RealSum(row[3..]);
    assert RealSum(row[1..]) == row[1] + RealSum(row[2..]);
  }

  function NormExampleMatrix(): seq<seq<real>>
  {
    [[1.0, 1.0, 1.0], [0.0, 1.0, 2.0], [4.0, 0.0, 3.0]]
  }

  /** The L1 test: rows summing to 3, 3 and 7 are divided by those sums. */
  lemma L1Example()
    ensures L1Normalize(NormExampleMatrix())
      == Success([[1.0 / 3.0, 1.0 / 3.0, 1.0 / 3.0], [0.0, 1.0 / 3.0, 2.0 / 3.0], [4.0 / 7.0, 0.0, 3.0 / 7.0]])
  {
    var x := NormExampleMatrix();
    assert AbsValues(x[0]) == x[0] && RealSum(x[0]) == 3.0 by { RowSum3(x[0]); }
    assert AbsValues(x[1]) == x[1] && RealSum(x[1]) == 3.0 by { RowSum3(x[1]); }
    assert AbsValues(x[2]) == x[2] && RealSum(x[2]) == 7.0 by { RowSum3(x[2]); }
    assert L1Normalize(x).Success?;
    var y := L1Normalize(x).value;
    assert |y| == 3;
    assert y[0] == DividedRow(x[0], 3.0) == [1.0 / 3.0, 1.0 / 3.0, 1.0 / 3.0];
    assert y[1] == DividedRow(x[1], 3.0) == [0.0, 1.0 / 3.0, 2.0 / 3.0];
    assert y[2] == DividedRow(x[2], 7.0) == [4.0 / 7.0, 0.0, 3.0 / 7.0];
    assert y == [y[0], y[1], y[2]];
  }

  /** The L2 test: the row norms are the square roots of 3, 5 and 25,
      whatever the square root is. */
  lemma L2NormsExample(sqrt: real -> real)
    ensures RowNorms(NormExampleMatrix(), sqrt) == [sqrt(3.0), sqrt(5.0), sqrt(25.0)]
  {
    var x := NormExampleMatrix();
    assert Squares(x[0]) == [1.0, 1.0, 1.0] && RealSum(Squares(x[0])) == 3.0 by { RowSum3(Squares(x[0])); }
    assert Squares(x[1]) == [0.0, 1.0, 4.0] && RealSum(Squares(x[1])) == 5.0 by { RowSum3(Squares(x[1])); }
    assert Squares(x[2]) == [16.0, 0.0, 9.0] && RealSum(Squares(x[2])) == 25.0 by { RowSum3(Squares(x[2])); }
  }

  function OneHotCounts(): seq<seq<nat>>
  {
    [[1, 0, 0], [0, 1, 0], [0, 0, 1], [1, 0, 0]]
  }

  function DenseCounts(): seq<seq<nat>>
  {
    [[1, 2, 3], [4, 5, 6], [7, 8, 9], [10, 11, 12]]
  }

  /** The term-frequency test: a new vectorizer keeps the counts as they
      are, here for one-hot rows ... */
  lemma OneHotTermFrequency(ln: real -> real)
    ensures TermFrequency(NewTfidfVectorizer(1, 2, "lower"), OneHotCounts(), ln)
      == [[1.0, 0.0, 0.0], [0.0, 1.0, 0.0], [0.0, 0.0, 1.0], [1.0, 0.0, 0.0]]
  {
    var a := TermFrequency(NewTfidfVectorizer(1, 2, "lower"), OneHotCounts(), ln);
    assert a[0] == [1.0, 0.0, 0.0] && a[1] == [0.0, 1.0, 0.0];
    assert a[2] == [0.0, 0.0, 1.0] && a[3] == [1.0, 0.0, 0.0];
  }

  /** ... and for a matrix without zeros. */
  lemma DenseTermFrequency(ln: real -> real)
    ensures TermFrequency(NewTfidfVectorizer(1, 2, "lower"), DenseCounts(), ln)
      == [[1.0, 2.0, 3.0], [4.0, 5.0, 6.0], [7.0, 8.0, 9.0], [10.0, 11.0, 12.0]]
  {
    var b := TermFrequency(NewTfidfVectorizer(1, 2, "lower"), DenseCounts(), ln);
    assert b[0] == [1.0, 2.0, 3.0] && b[1] == [4.0, 5.0, 6.0];
    assert b[2] == [7.0, 8.0, 9.0] && b[3] == [10.0, 11.0, 12.0];
  }

  /** The document-frequency test: the first one-hot column is used by two
      of the four rows and the others by one ... */
  lemma OneHotDocumentFrequency()
    ensures DocumentFrequency(OneHotCounts(), 3) == [2, 1, 1]
  {
    var a := DocumentFrequency(OneHotCounts(), 3);
    assert a[0] == NonzeroRows(OneHotCounts(), 0, 4) == 2;
    assert a[1] == NonzeroRows(OneHotCounts(), 1, 4) == 1;
    assert a[2] == NonzeroRows(OneHotCounts(), 2, 4) == 1;
  }

  /** ... and in a matrix without zeros every column is used by all four. */
  lemma DenseDocumentFrequency()
    ensures DocumentFrequency(DenseCounts(), 3) == [4, 4, 4]
  {
    var b := DocumentFrequency(DenseCounts(), 3);
    assert b[0] == NonzeroRows(DenseCounts(), 0, 4) == 4;
    assert b[1] == NonzeroRows(DenseCounts(), 1, 4) == 4;
    assert b[2] == NonzeroRows(DenseCounts(), 2, 4) == 4;
  }

  lemma ExampleStream(tokenized: seq<seq<string>>)
    requires |tokenized| == 2 && tokenized[0] == FruitWords() && tokenized[1] == NumberWords()
    ensures Flatten(tokenized) == FruitWords() + NumberWords()
  {
    assert tokenized[..1] == [FruitWords()];
    assert Flatten(tokenized[..1]) == FruitWords() by {
      assert tokenized[..1][..0] == [];
    }
  }

  lemma ExampleKeys(vocabulary: map<string, nat>)
    requires forall t :: t in vocabulary <==> t in FruitWords() + NumberWords()
    ensures |vocabulary| == 7
  {
    WordsOfExample();
    assert vocabulary.Keys == ExampleVocabulary();
    ExampleVocabularySize();
  }

  lemma ExampleFirstId(vocabulary: map<string, nat>)
    requires IndexedBy(vocabulary, FirstSeen(FruitWords() + NumberWords()))
    ensures "apple" in vocabulary && vocabulary["apple"] == 0
  {
    FirstSeenHead(FruitWords() + NumberWords());
  }

  /** A word-character class that agrees with `\w` on the characters of
      the count example: lower-case letters are word characters, and the
      comma, the full stop and the space are not. */
  ghost predicate Separating(isWord: char -> bool)
  {
    && (forall c :: 'a' <= c <= 'z' ==> isWord(c))
    && !isWord(',') && !isWord('.') && !isWord(' ')
  }

  predicate LowerCase(w: string)
  {
    forall c :: c in w ==> 'a' <= c <= 'z'
  }

  /** The first document of the count example, as its words with the
      separators between them. */
  function FruitsText(): string
  {
    Interleave(FruitWords(), [", ", ", ", ", ", ", ", ", ", ", ", ". ", ", ", ", ", ", ", ", ", ", "])
  }

  lemma FruitsWords(isWord: char -> bool)
    requires Separating(isWord)
    ensures Words(FruitsText(), isWord) == FruitWords()
  {
    var ws, seps := FruitWords(), [", ", ", ", ", ", ", ", ", ", ", ", ". ", ", ", ", ", ", ", ", ", ", "];
    assert forall i :: 0 <= i < |ws| ==> |ws[i]| >= 2 && LowerCase(ws[i]);
    assert forall i :: 0 <= i < |seps| ==> seps[i] == ", " || seps[i] == ". ";
    WordsOfInterleave(ws, seps, isWord);
  }

  /** The second document of the count example, as its words with the
      separators between them. */
  function NumbersText(): string
  {
    Interleave(NumberWords(), [", ", ", ", ", ", ", ", ", ", ", ", ". ", ", ", ", ", ", "])
  }

  lemma NumbersWords(isWord: char -> bool)
    requires Separating(isWord)
    ensures Words(NumbersText(), isWord) == NumberWords()
  {
    var ws, seps := NumberWords(), [", ", ", ", ", ", ", ", ", ", ", ", ". ", ", ", ", ", ", "];
    assert forall i :: 0 <= i < |ws| ==> |ws[i]| >= 2 && LowerCase(ws[i]);
    assert forall i :: 0 <= i < |seps| ==> seps[i] == ", " || seps[i] == ". ";
    WordsOfInterleave(ws, seps, isWord);
  }

  /** With the range 1..1 and no case conversion, the tokens of a document
      are its words. */
  lemma UnigramTokens(ops: TextOps, doc: string, words: seq<string>)
    requires Words(doc, ops.isWord) == words
    ensures TokenizeDoc(Tokenizer(1, 1, ""), ops, doc) == words
  {
    UnigramsAreWords(Tokenizer(1, 1, ""), words);
    OtherCaseKeeps("", ops, words);
  }

  /** The two documents of the count example, tokenized with the range 1..1
      and no case conversion, are their words. */
  lemma ExampleTokens(ops: TextOps)
    requires Separating(ops.isWord)
    ensures Tokenize(Tokenizer(1, 1, ""), ops, [FruitsText(), NumbersText()])[0] == FruitWords()
    ensures Tokenize(Tokenizer(1, 1, ""), ops, [FruitsText(), NumbersText()])[1] == NumberWords()
  {
    FruitsWords(ops.isWord);
    UnigramTokens(ops, FruitsText(), FruitWords());
    NumbersWords(ops.isWord);
    UnigramTokens(ops, NumbersText(), NumberWords());
  }

  /** Counts over the words of the two documents that meet the count
      vectorizer's contract: seven distinct words, "apple" first with id 0,
      four times in the first document and once in the second. */
  lemma ExampleCounts(tokenized: seq<seq<string>>, vocabulary: map<string, nat>, x: seq<seq<nat>>)
    requires |tokenized| == 2 && tokenized[0] == FruitWords() && tokenized[1] == NumberWords()
    requires IndexedBy(vocabulary, FirstSeen(Flatten(tokenized)))
    requires |vocabulary| == |FirstSeen(Flatten(tokenized))|
    requires forall t :: t in vocabulary <==> t in Flatten(tokenized)
    requires Shape(x, 2, |vocabulary|)
    requires forall i, t :: 0 <= i < |x| && t in vocabulary ==> x[i][vocabulary[t]] == multiset(tokenized[i])[t]
    ensures |vocabulary| == 7
    ensures "apple" in vocabulary && vocabulary["apple"] == 0
    ensures |x| == 2 && |x[0]| == |x[1]| == 7
    ensures x[0][0] == 4 && x[1][0] == 1
  {
    ExampleStream(tokenized);
    ExampleKeys(vocabulary);
    ExampleFirstId(vocabulary);
    ApplesOfFruits();
    ApplesOfNumbers();
    assert x[0][vocabulary["apple"]] == multiset(tokenized[0])["apple"];
    assert x[1][vocabulary["apple"]] == multiset(tokenized[1])["apple"];
  }

  /** The count example: the two documents fitted with the range 1..1 and
      no case conversion give seven distinct words, "apple" first with id 0,
      four times in the first document and once in the second. */
  method CountExample(ops: TextOps) returns (vocabulary: map<string, nat>, x: seq<seq<nat>>)
    requires Separating(ops.isWord)
    ensures |vocabulary| == 7
    ensures "apple" in vocabulary && vocabulary["apple"] == 0
    ensures |x| == 2 && |x[0]| == |x[1]| == 7
    ensures x[0][0] == 4 && x[1][0] == 1
  {
    var cv := NewCountVectorizer(1, 1, "");
    var fitted;
    fitted, x := CountVectorization.FitTransform(cv, ops, [FruitsText(), NumbersText()]);
    vocabulary := fitted.vocabulary;
    assert TokenizerOf(cv) == Tokenizer(1, 1, "");
    ExampleTokens(ops);
    ExampleCounts(Tokenize(Tokenizer(1, 1, ""), ops, [FruitsText(), NumbersText()]), vocabulary, x);
  }

  /** A vectorizer fitted on "apple" and fitted again on "banana": the id
      counter restarts at 0, so "banana" takes the id "apple" still holds. */
  lemma RefitExample()
    ensures AssignIds(map["apple" := 0], 0, ["banana"]) == map["apple" := 0, "banana" := 0]
  {
    assert ["banana"][1..] == [];
  }
}
