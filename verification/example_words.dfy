/** The words of the two documents of the repository's count example, as
    the word pattern finds them (punctuation and spaces separate words), with
    the facts about them the count example needs. */
module ExampleWords {
  function FruitWords(): seq<string>
  {
    ["apple", "banana", "apple", "banana", "orange", "three",
     "apple", "apple", "banana", "orange", "orange", "one", "three"]
  }

  function NumberWords(): seq<string>
  {
    ["one", "two", "three", "two", "three", "apple",
     "three", "three", "four", "four", "one"]
  }

  function ExampleVocabulary(): set<string>
  {
    {"apple", "banana", "orange", "three", "one", "two", "four"}
  }

  /** Every word of the two documents is one of seven, and each of the
      seven occurs. */
  lemma WordsOfExample()
    ensures forall t :: t in FruitWords() + NumberWords() ==> t in ExampleVocabulary()
    ensures forall t :: t in ExampleVocabulary() ==> t in FruitWords() + NumberWords()
  {
    var s := FruitWords() + NumberWords();
    assert s[0] == "apple" && s[1] == "banana" && s[4] == "orange" && s[5] == "three";
    assert s[11] == "one" && s[14] == "two" && s[21] == "four";
  }

  lemma ExampleVocabularySize()
    ensures |ExampleVocabulary()| == 7
  {
  }

  lemma ApplesOfFruits()
    ensures multiset(FruitWords())["apple"] == 4
  {
  }

  lemma ApplesOfNumbers()
    ensures multiset(NumberWords())["apple"] == 1
  {
  }
}
