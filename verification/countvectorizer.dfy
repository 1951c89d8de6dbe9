/** The count vectorizer: one pass over the tokenized documents that gives
    every new token the next id, counts the tokens of each document, and
    lays the counts out as a dense documents-by-vocabulary matrix. */
module CountVectorization {
  import opened Arrays
  import opened Tokenization

  /** A count vectorizer: its vocabulary (token to column id) and the
      settings it hands to the tokenizer. */
  datatype CountVectorizer = CountVectorizer(
    vocabulary: map<string, nat>, minN: nat, maxN: nat, letterCase: string)

  /** A new count vectorizer has an empty vocabulary. */
  function NewCountVectorizer(minN: nat, maxN: nat, letterCase: string): (cv: CountVectorizer)
    ensures cv.vocabulary == map[]
    ensures cv.minN == minN && cv.maxN == maxN && cv.letterCase == letterCase
  {
    CountVectorizer(map[], minN, maxN, letterCase)
  }

  function TokenizerOf(cv: CountVectorizer): Tokenizer
  {
    NewTokenizer(cv.minN, cv.maxN, cv.letterCase)
  }

  // ---------------------------------------------------------------------
  // Reference definitions: the token stream and its first occurrences
  // ---------------------------------------------------------------------

  /** All tokens of all documents, document after document. */
  function Flatten(docs: seq<seq<string>>): seq<string>
  {
    if |docs| == 0 then [] else Flatten(docs[..|docs| - 1]) + docs[|docs| - 1]
  }

  /** The distinct tokens of `s` in the order of their first occurrence. */
  function FirstSeen(s: seq<string>): seq<string>
  {
    if |s| == 0 then []
    else
      var seen := FirstSeen(s[..|s| - 1]);
      if s[|s| - 1] in seen then seen else seen + [s[|s| - 1]]
  }

  predicate Distinct(s: seq<string>)
  {
    forall i, j :: 0 <= i < j < |s| ==> s[i] != s[j]
  }

  /** `vocabulary` gives the token `order[j]` the id `j`, and has no other keys. */
  predicate IndexedBy(vocabulary: map<string, nat>, order: seq<string>)
  {
    && (forall j :: 0 <= j < |order| ==> order[j] in vocabulary && vocabulary[order[j]] == j)
    && (forall t :: t in vocabulary ==> t in order)
  }

  predicate Injective(vocabulary: map<string, nat>)
  {
    forall t, u :: t in vocabulary && u in vocabulary && t != u ==> vocabulary[t] != vocabulary[u]
  }

  function Get(counts: map<nat, nat>, id: nat): nat
  {
    if id in counts then counts[id] else 0
  }

  /** The sparse counts `counts` of a document hold, under the id `j`, the
      number of occurrences of `order[j]` in `doc`, and nothing else. */
  predicate TalliedBy(counts: map<nat, nat>, doc: seq<string>, order: seq<string>)
  {
    && (forall id :: id in counts ==> id < |order|)
    && (forall j :: 0 <= j < |order| ==> Get(counts, j) == multiset(doc)[order[j]])
  }

  lemma {:induction false} FirstSeenElements(s: seq<string>)
    ensures forall t :: t in FirstSeen(s) <==> t in s
    ensures Distinct(FirstSeen(s))
  {
    if |s| > 0 {
      FirstSeenElements(s[..|s| - 1]);
      assert s == s[..|s| - 1] + [s[|s| - 1]];
    }
  }

  /** The first token of a nonempty stream always gets id 0. */
  lemma {:induction false} FirstSeenHead(s: seq<string>)
    requires |s| > 0
    ensures |FirstSeen(s)| > 0 && FirstSeen(s)[0] == s[0]
  {
    if |s| > 1 {
      FirstSeenHead(s[..|s| - 1]);
    }
  }

  /** The first occurrences of a prefix are a prefix of the first occurrences. */
  lemma {:induction false} FirstSeenPrefix(s: seq<string>, p: nat)
    requires p <= |s|
    ensures FirstSeen(s[..p]) <= FirstSeen(s)
    decreases |s| - p
  {
    if p < |s| {
      FirstSeenPrefix(s, p + 1);
      assert s[..p + 1][..p] == s[..p];
    } else {
      assert s[..p] == s;
    }
  }

  lemma {:induction false} FlattenElements(docs: seq<seq<string>>)
    ensures forall t :: t in Flatten(docs) <==> exists i :: 0 <= i < |docs| && t in docs[i]
  {
    if |docs| > 0 {
      var init := docs[..|docs| - 1];
      FlattenElements(init);
      forall t
        ensures t in Flatten(docs) <==> exists i :: 0 <= i < |docs| && t in docs[i]
      {
        if t in Flatten(init) {
          var i :| 0 <= i < |init| && t in init[i];
          assert t in docs[i];
        }
        if exists i :: 0 <= i < |docs| && t in docs[i] {
          var i :| 0 <= i < |docs| && t in docs[i];
          if i < |docs| - 1 {
            assert t in init[i];
          }
        }
      }
    }
  }

  /** A vocabulary indexed by a list of distinct tokens has one entry per token. */
  lemma {:induction false} IndexedSize(vocabulary: map<string, nat>, order: seq<string>)
    requires IndexedBy(vocabulary, order) && Distinct(order)
    ensures |vocabulary| == |order|
    ensures Injective(vocabulary)
    ensures forall t :: t in vocabulary ==> vocabulary[t] < |vocabulary|
  {
    var keys := set j | 0 <= j < |order| :: order[j];
    assert vocabulary.Keys == keys by {
      forall t | t in vocabulary ensures t in keys {
        var j :| 0 <= j < |order| && order[j] == t;
      }
    }
    DistinctCard(order);
    forall t, u | t in vocabulary && u in vocabulary && t != u
      ensures vocabulary[t] != vocabulary[u]
    {
      var j :| 0 <= j < |order| && order[j] == t;
      var l :| 0 <= l < |order| && order[l] == u;
    }
    forall t | t in vocabulary ensures vocabulary[t] < |vocabulary| {
      var j :| 0 <= j < |order| && order[j] == t;
    }
  }

  lemma {:induction false} DistinctCard(s: seq<string>)
    requires Distinct(s)
    ensures |set j | 0 <= j < |s| :: s[j]| == |s|
  {
    if |s| > 0 {
      var init := s[..|s| - 1];
      assert Distinct(init);
      DistinctCard(init);
      var a := set j | 0 <= j < |init| :: init[j];
      var b := set j | 0 <= j < |s| :: s[j];
      assert b == a + {s[|s| - 1]} by {
        forall t | t in b ensures t in a + {s[|s| - 1]} {
          var j :| 0 <= j < |s| && s[j] == t;
          if j < |s| - 1 {
            assert init[j] == t;
          }
        }
      }
      assert s[|s| - 1] !in a;
    }
  }

  // ---------------------------------------------------------------------
  // Densification and the fit
  // ---------------------------------------------------------------------

  /** The dense matrix of the per-document sparse counts: row `i`, column
      `id` holds the count stored under `id` for document `i`, and every cell
      without a stored count is 0. An id at or beyond `width` would index
      outside the matrix, which the caller rules out. */
  function SortVocabularyCount(rows: seq<map<nat, nat>>, width: nat): (x: seq<seq<nat>>)
    requires forall i, id :: 0 <= i < |rows| && id in rows[i] ==> id < width
    ensures Shape(x, |rows|, width)
    ensures forall i, id: nat :: 0 <= i < |rows| && id < width ==> x[i][id] == Get(rows[i], id)
  {
    seq(|rows|, i requires 0 <= i < |rows| => seq(width, id requires 0 <= id < width => Get(rows[i], id)))
  }

  /** A token not yet in the vocabulary gets the next id and a count of 1. */
  lemma NewTokenStep(vocabulary: map<string, nat>, order: seq<string>, counts: map<nat, nat>,
                     seen: seq<string>, doc: seq<string>, t: string)
    requires order == FirstSeen(seen) && IndexedBy(vocabulary, order)
    requires TalliedBy(counts, doc, order)
    requires forall u :: u in doc ==> u in seen
    requires t !in vocabulary
    ensures FirstSeen(seen + [t]) == order + [t]
    ensures IndexedBy(vocabulary[t := |order|], order + [t])
    ensures TalliedBy(counts[|order| := 1], doc + [t], order + [t])
  {
    assert (seen + [t])[..|seen + [t]| - 1] == seen;
    assert t !in order;
    assert t !in doc by {
      FirstSeenElements(seen);
    }
    AppendIndexed(vocabulary, order, t);
    AppendTallied(counts, doc, order, t);
  }

  lemma AppendIndexed(vocabulary: map<string, nat>, order: seq<string>, t: string)
    requires IndexedBy(vocabulary, order) && t !in order
    ensures IndexedBy(vocabulary[t := |order|], order + [t])
  {
    var v' := vocabulary[t := |order|];
    var o' := order + [t];
    forall j | 0 <= j < |o'| ensures o'[j] in v' && v'[o'[j]] == j {
      if j < |order| {
        assert o'[j] == order[j] != t;
      }
    }
  }

  lemma AppendTallied(counts: map<nat, nat>, doc: seq<string>, order: seq<string>, t: string)
    requires TalliedBy(counts, doc, order) && t !in order && t !in doc
    ensures TalliedBy(counts[|order| := 1], doc + [t], order + [t])
  {
    var o' := order + [t];
    var c' := counts[|order| := 1];
    assert multiset(doc + [t]) == multiset(doc) + multiset{t};
    forall j | 0 <= j < |o'| ensures Get(c', j) == multiset(doc + [t])[o'[j]] {
      if j < |order| {
        assert o'[j] == order[j] != t;
        assert Get(c', j) == Get(counts, j);
      }
    }
  }

  /** A token already in the vocabulary keeps its id and its count goes up by 1. */
  lemma KnownTokenStep(vocabulary: map<string, nat>, order: seq<string>, counts: map<nat, nat>,
                       seen: seq<string>, doc: seq<string>, t: string)
    requires order == FirstSeen(seen) && IndexedBy(vocabulary, order)
    requires TalliedBy(counts, doc, order)
    requires t in vocabulary
    ensures FirstSeen(seen + [t]) == order
    ensures TalliedBy(counts[vocabulary[t] := Get(counts, vocabulary[t]) + 1], doc + [t], order)
  {
    assert (seen + [t])[..|seen + [t]| - 1] == seen;
    assert multiset(doc + [t]) == multiset(doc) + multiset{t};
    var id := vocabulary[t];
    assert order[id] == t by {
      var j :| 0 <= j < |order| && order[j] == t;
    }
  }

  /** Counts of a document stay valid when the order grows by tokens the
      document does not contain. */
  lemma TallyGrows(counts: map<nat, nat>, doc: seq<string>, order: seq<string>, order': seq<string>)
    requires TalliedBy(counts, doc, order)
    requires order <= order'
    requires forall j :: |order| <= j < |order'| ==> order'[j] !in doc
    ensures TalliedBy(counts, doc, order')
  {
  }

  // The three sequence facts below are lemmas rather than inline asserts:
  // stated inside the loops and the induction that use them, they leave the
  // solver too many sequence terms to relate.

  lemma TakeStep(s: seq<string>, k: nat)
    requires k < |s|
    ensures s[..k + 1] == s[..k] + [s[k]]
  {
  }

  lemma AppendAssociates(a: seq<string>, b: seq<string>, t: string)
    ensures (a + b) + [t] == a + (b + [t])
  {
  }

  lemma SuffixElements(before: seq<string>, doc: seq<string>)
    ensures forall u :: u in doc ==> u in before + doc
  {
    forall u | u in doc ensures u in before + doc {
      var j :| 0 <= j < |doc| && doc[j] == u;
      assert (before + doc)[|before| + j] == u;
    }
  }

  /** One token of the inner loop of `fit_transform`: a token not yet in
      the vocabulary gets the next id and a count of 1; a known token's
      count grows by 1. */
  method CountToken(t: string, vocabulary: map<string, nat>, indexer: nat, counts: map<nat, nat>,
                    ghost before: seq<string>, ghost doc: seq<string>, ghost order: seq<string>,
                    ghost seen: seq<string>, ghost seen': seq<string>, ghost doc': seq<string>)
    returns (vocabulary': map<string, nat>, indexer': nat, counts': map<nat, nat>)
    requires seen == before + doc && seen' == seen + [t] && doc' == doc + [t]
    requires order == FirstSeen(seen) && IndexedBy(vocabulary, order) && indexer == |order|
    requires TalliedBy(counts, doc, order)
    ensures seen' == before + doc'
    ensures IndexedBy(vocabulary', FirstSeen(seen')) && indexer' == |FirstSeen(seen')|
    ensures TalliedBy(counts', doc', FirstSeen(seen'))
  {
    AppendAssociates(before, doc, t);
    SuffixElements(before, doc);
    if t !in vocabulary {
      NewTokenStep(vocabulary, order, counts, seen, doc, t);
      vocabulary' := vocabulary[t := indexer];
      counts' := counts[indexer := 1];
      indexer' := indexer + 1;
    } else {
      KnownTokenStep(vocabulary, order, counts, seen, doc, t);
      var id := vocabulary[t];
      vocabulary', indexer' := vocabulary, indexer;
      counts' := counts[id := Get(counts, id) + 1];
    }
  }

  /** The inner loop of `fit_transform`: the tokens of one document, in
      order, given the first occurrences `order` of the tokens before it. */
  method CountDocument(doc: seq<string>, vocabulary: map<string, nat>, indexer: nat,
                       ghost seen: seq<string>, ghost order: seq<string>)
    returns (vocabulary': map<string, nat>, indexer': nat, counts: map<nat, nat>, ghost order': seq<string>)
    requires order == FirstSeen(seen) && IndexedBy(vocabulary, order) && indexer == |order|
    ensures order' == FirstSeen(seen + doc)
    ensures IndexedBy(vocabulary', order') && indexer' == |order'|
    ensures TalliedBy(counts, doc, order')
  {
    vocabulary', indexer', counts, order' := vocabulary, indexer, map[], order;
    var k := 0;
    ghost var prefix: seq<string> := [];
    ghost var stream := seen;
    assert stream == seen + prefix;
    while k < |doc|
      invariant 0 <= k <= |doc|
      invariant prefix == doc[..k] && stream == seen + prefix
      invariant order' == FirstSeen(stream)
      invariant IndexedBy(vocabulary', order') && indexer' == |order'|
      invariant TalliedBy(counts, prefix, order')
    {
      vocabulary', indexer', counts :=
        CountToken(doc[k], vocabulary', indexer', counts, seen, prefix, order', stream, stream + [doc[k]], prefix + [doc[k]]);
      order' := FirstSeen(stream + [doc[k]]);
      TakeStep(doc, k);
      prefix, stream := prefix + [doc[k]], stream + [doc[k]];
      k := k + 1;
    }
    assert prefix == doc;
  }

  lemma FlattenStep(tokenized: seq<seq<string>>, d: nat)
    requires d < |tokenized|
    ensures Flatten(tokenized[..d + 1]) == Flatten(tokenized[..d]) + tokenized[d]
  {
    assert tokenized[..d + 1][..d] == tokenized[..d];
  }

  /** The order grows past the tokens of the first `d` documents only by
      tokens none of them contains. */
  lemma NewTokensAreNew(tokenized: seq<seq<string>>, d: nat, order: seq<string>, order': seq<string>)
    requires d < |tokenized|
    requires order == FirstSeen(Flatten(tokenized[..d]))
    requires order' == FirstSeen(Flatten(tokenized[..d]) + tokenized[d])
    ensures order <= order'
    ensures forall i, j :: 0 <= i < d && |order| <= j < |order'| ==> order'[j] !in tokenized[i]
  {
    var seen := Flatten(tokenized[..d]);
    FirstSeenPrefix(seen + tokenized[d], |seen|);
    assert (seen + tokenized[d])[..|seen|] == seen;
    FirstSeenElements(seen + tokenized[d]);
    FirstSeenElements(seen);
    FlattenElements(tokenized[..d]);
    forall i, j | 0 <= i < d && |order| <= j < |order'| ensures order'[j] !in tokenized[i] {
      assert tokenized[..d][i] == tokenized[i];
      assert order'[j] !in order;
    }
  }

  /** Tokens first seen in document `d` occur in no earlier document, so
      the earlier documents' counts stay valid against the longer order. */
  lemma EarlierRowsStayTallied(tokenized: seq<seq<string>>, d: nat, rows: seq<map<nat, nat>>,
                               order: seq<string>, order': seq<string>,
                               counts: map<nat, nat>, rows': seq<map<nat, nat>>)
    requires d < |tokenized| && |rows| == d
    requires order == FirstSeen(Flatten(tokenized[..d]))
    requires order' == FirstSeen(Flatten(tokenized[..d]) + tokenized[d])
    requires forall i :: 0 <= i < d ==> TalliedBy(rows[i], tokenized[i], order)
    requires TalliedBy(counts, tokenized[d], order') && rows' == rows + [counts]
    ensures order' == FirstSeen(Flatten(tokenized[..d + 1]))
    ensures forall i :: 0 <= i < d + 1 ==> TalliedBy(rows'[i], tokenized[i], order')
  {
    FlattenStep(tokenized, d);
    NewTokensAreNew(tokenized, d, order, order');
    forall i | 0 <= i < d
      ensures TalliedBy(rows'[i], tokenized[i], order')
    {
      TallyGrows(rows[i], tokenized[i], order, order');
      assert rows'[i] == rows[i];
    }
  }

  /** The loop of `fit_transform` over already tokenized documents, starting
      from an empty vocabulary: each token not yet in the vocabulary gets the
      id equal to the vocabulary's size, and each document keeps a sparse
      count per id; the counts are then laid out densely. */
  method CountTokens(tokenized: seq<seq<string>>) returns (vocabulary: map<string, nat>, x: seq<seq<nat>>)
    ensures IndexedBy(vocabulary, FirstSeen(Flatten(tokenized)))
    ensures |vocabulary| == |FirstSeen(Flatten(tokenized))|
    ensures forall t :: t in vocabulary <==> t in Flatten(tokenized)
    ensures Shape(x, |tokenized|, |vocabulary|)
    ensures forall i, t :: 0 <= i < |x| && t in vocabulary ==> x[i][vocabulary[t]] == multiset(tokenized[i])[t]
    ensures forall i :: 0 <= i < |x| ==> Sum(x[i]) == |tokenized[i]|
    ensures forall j :: 0 <= j < |vocabulary| ==> ColumnUsed(x, j)
  {
    vocabulary := map[];
    var rows: seq<map<nat, nat>> := [];
    var indexer: nat := 0;
    ghost var order: seq<string> := [];
    var d := 0;
    while d < |tokenized|
      invariant 0 <= d <= |tokenized|
      invariant |rows| == d
      invariant order == FirstSeen(Flatten(tokenized[..d]))
      invariant IndexedBy(vocabulary, order) && indexer == |order|
      invariant forall i :: 0 <= i < d ==> TalliedBy(rows[i], tokenized[i], order)
    {
      ghost var seen := Flatten(tokenized[..d]);
      var counts;
      ghost var order';
      vocabulary, indexer, counts, order' := CountDocument(tokenized[d], vocabulary, indexer, seen, order);
      EarlierRowsStayTallied(tokenized, d, rows, order, order', counts, rows + [counts]);
      rows := rows + [counts];
      order := order';
      d := d + 1;
    }
    assert tokenized[..d] == tokenized;
    FirstSeenElements(Flatten(tokenized));
    IndexedSize(vocabulary, order);
    x := SortVocabularyCount(rows, indexer);
    CountMatrixTotals(tokenized, vocabulary, x);
  }

  /** `s` with every occurrence of `u` removed. */
  function Without(s: seq<string>, u: string): (r: seq<string>)
    ensures |r| + multiset(s)[u] == |s|
    ensures forall x :: multiset(r)[x] == if x == u then 0 else multiset(s)[x]
    ensures forall x :: x in r ==> x in s && x != u
  {
    if |s| == 0 then []
    else
      assert s == [s[0]] + s[1..];
      (if s[0] == u then [] else [s[0]]) + Without(s[1..], u)
  }

  /** A row holding, per distinct token of `order`, its number of
      occurrences in `doc` sums to the length of `doc` when `order` covers
      every token of `doc`. */
  lemma {:induction false} TallyTotal(row: seq<nat>, order: seq<string>, doc: seq<string>)
    requires |row| == |order| && Distinct(order)
    requires forall t :: t in doc ==> t in order
    requires forall j :: 0 <= j < |order| ==> row[j] == multiset(doc)[order[j]]
    ensures Sum(row) == |doc|
    decreases |order|
  {
    if |order| == 0 {
      assert order == [];
      forall t ensures multiset(doc)[t] == 0 {
        assert t !in doc;
      }
      assert multiset(doc) == multiset{};
    } else {
      var u := order[0];
      var rest := Without(doc, u);
      var tail := order[1..];
      forall t | t in rest ensures t in tail {
        var j :| 0 <= j < |order| && order[j] == t;
      }
      forall j | 0 <= j < |tail| ensures row[1..][j] == multiset(rest)[tail[j]] {
        assert tail[j] == order[j + 1] != u;
      }
      TallyTotal(row[1..], tail, rest);
    }
  }

  /** Each row of a fitted count matrix sums to the number of tokens of its
      document, and every column has a nonzero entry in some row. */
  lemma CountMatrixTotals(tokenized: seq<seq<string>>, vocabulary: map<string, nat>, x: seq<seq<nat>>)
    requires IndexedBy(vocabulary, FirstSeen(Flatten(tokenized)))
    requires |vocabulary| == |FirstSeen(Flatten(tokenized))|
    requires Shape(x, |tokenized|, |vocabulary|)
    requires forall i, t :: 0 <= i < |x| && t in vocabulary ==> x[i][vocabulary[t]] == multiset(tokenized[i])[t]
    ensures forall i :: 0 <= i < |x| ==> Sum(x[i]) == |tokenized[i]|
    ensures forall j :: 0 <= j < |vocabulary| ==> ColumnUsed(x, j)
  {
    var order := FirstSeen(Flatten(tokenized));
    FirstSeenElements(Flatten(tokenized));
    FlattenElements(tokenized);
    forall i | 0 <= i < |x| ensures Sum(x[i]) == |tokenized[i]| {
      forall j | 0 <= j < |order| ensures x[i][j] == multiset(tokenized[i])[order[j]] {
        assert vocabulary[order[j]] == j;
      }
      TallyTotal(x[i], order, tokenized[i]);
    }
    forall j | 0 <= j < |vocabulary| ensures ColumnUsed(x, j) {
      var t := order[j];
      var i :| 0 <= i < |tokenized| && t in tokenized[i];
      assert x[i][vocabulary[t]] == multiset(tokenized[i])[t];
    }
  }

  /** Ids follow first occurrence: a token that occurs within the first `p`
      tokens of the stream has a smaller id than one that first occurs after them. */
  lemma IdsFollowFirstOccurrence(vocabulary: map<string, nat>, s: seq<string>, p: nat, t: string, u: string)
    requires IndexedBy(vocabulary, FirstSeen(s))
    requires p <= |s| && t in s[..p] && u in s && u !in s[..p]
    ensures t in vocabulary && u in vocabulary && vocabulary[t] < vocabulary[u]
  {
    var pre := FirstSeen(s[..p]);
    var all := FirstSeen(s);
    assert t in pre && u !in pre by {
      FirstSeenElements(s[..p]);
    }
    assert u in all by {
      FirstSeenElements(s);
    }
    FirstSeenPrefix(s, p);
    PrefixIds(vocabulary, pre, all, t, u);
  }

  /** Under ids given by positions in `all`, a token of its prefix `pre`
      has a smaller id than a token outside `pre`. */
  lemma PrefixIds(vocabulary: map<string, nat>, pre: seq<string>, all: seq<string>, t: string, u: string)
    requires IndexedBy(vocabulary, all) && pre <= all
    requires t in pre && u in all && u !in pre
    ensures t in vocabulary && u in vocabulary && vocabulary[t] < vocabulary[u]
  {
    var a :| 0 <= a < |pre| && pre[a] == t;
    var b :| 0 <= b < |all| && all[b] == u;
    assert all[a] == t;
    assert forall k :: 0 <= k < |pre| ==> all[k] == pre[k] != u;
    assert b >= |pre|;
  }

  // ---------------------------------------------------------------------
  // Reverse vocabulary
  // ---------------------------------------------------------------------

  /** The entries of `keys` visited in order, each storing its token under
      its id; a later entry with the same id overwrites an earlier one. */
  function Invert(vocabulary: map<string, nat>, keys: seq<string>): (rev: map<nat, string>)
    requires forall t :: t in keys ==> t in vocabulary
    ensures forall id :: id in rev ==> rev[id] in keys && vocabulary[rev[id]] == id
    ensures forall t :: t in keys ==> vocabulary[t] in rev
  {
    if |keys| == 0 then map[]
    else
      var last := keys[|keys| - 1];
      Invert(vocabulary, keys[..|keys| - 1])[vocabulary[last] := last]
  }

  /** `reverse_vocabulary_hashmap`: the id-to-token map, built by visiting the
      vocabulary's entries in the order `keys`, the hash map's iteration
      order, which this model leaves open. Its keys are the ids in use, each
      mapped to a token carrying that id; for an injective vocabulary it is
      the exact inverse. */
  function ReverseVocabulary(vocabulary: map<string, nat>, keys: seq<string>): (rev: map<nat, string>)
    requires forall t :: t in keys <==> t in vocabulary
    ensures rev.Keys == vocabulary.Values
    ensures forall id :: id in rev ==> rev[id] in vocabulary && vocabulary[rev[id]] == id
    ensures Injective(vocabulary) ==> forall t :: t in vocabulary ==> rev[vocabulary[t]] == t
  {
    Invert(vocabulary, keys)
  }

  lemma {:induction false} InjectiveValuesCount(m: map<string, nat>)
    requires Injective(m)
    ensures |m.Values| == |m|
    decreases |m|
  {
    if |m| > 0 {
      var t :| t in m;
      var m' := m - {t};
      assert m'.Keys == m.Keys - {t};
      assert m'.Values == m.Values - {m[t]} by {
        forall v | v in m.Values - {m[t]} ensures v in m'.Values {
          var u :| u in m && m[u] == v;
          assert u in m';
        }
      }
      InjectiveValuesCount(m');
    }
  }

  /** For an injective vocabulary the reverse map has as many entries as the
      vocabulary: every id maps to exactly one token and back. */
  lemma ReverseVocabularySize(vocabulary: map<string, nat>, keys: seq<string>)
    requires forall t :: t in keys <==> t in vocabulary
    requires Injective(vocabulary)
    ensures |ReverseVocabulary(vocabulary, keys)| == |vocabulary|
  {
    InjectiveValuesCount(vocabulary);
    assert ReverseVocabulary(vocabulary, keys).Keys == vocabulary.Values;
  }

  /** After a fit the reverse map lists the vocabulary in id order: id `j`
      maps to the `j`-th distinct token, and there are no other ids. */
  lemma FittedReverse(vocabulary: map<string, nat>, order: seq<string>, keys: seq<string>)
    requires IndexedBy(vocabulary, order) && Distinct(order)
    requires forall t :: t in keys <==> t in vocabulary
    ensures var rev := ReverseVocabulary(vocabulary, keys);
      && |rev| == |order|
      && forall j :: 0 <= j < |order| ==> j in rev && rev[j] == order[j]
  {
    IndexedSize(vocabulary, order);
    ReverseVocabularySize(vocabulary, keys);
    var rev := ReverseVocabulary(vocabulary, keys);
    forall j | 0 <= j < |order| ensures j in rev && rev[j] == order[j] {
      assert vocabulary[order[j]] == j;
    }
  }

  /** `fit_transform`: tokenize the documents with the vectorizer's
      settings, then assign ids and count, building the vocabulary afresh
      from the documents. This is the refit that the id counter restarting
      at 0 presupposes; `AssignIds` shows what happens instead when the
      vectorizer already holds a vocabulary. */
  method FitTransform(cv: CountVectorizer, ops: TextOps, docs: seq<string>)
    returns (fitted: CountVectorizer, x: seq<seq<nat>>)
    ensures fitted == cv.(vocabulary := fitted.vocabulary)
    ensures var tokens := Tokenize(TokenizerOf(cv), ops, docs);
      && IndexedBy(fitted.vocabulary, FirstSeen(Flatten(tokens)))
      && |fitted.vocabulary| == |FirstSeen(Flatten(tokens))|
      && (forall t :: t in fitted.vocabulary <==> t in Flatten(tokens))
      && Shape(x, |docs|, |fitted.vocabulary|)
      && (forall i, t :: 0 <= i < |x| && t in fitted.vocabulary ==> x[i][fitted.vocabulary[t]] == multiset(tokens[i])[t])
      && (forall i :: 0 <= i < |x| ==> Sum(x[i]) == |tokens[i]|)
      && (forall j :: 0 <= j < |fitted.vocabulary| ==> ColumnUsed(x, j))
      && fitted.vocabulary == AssignIds(map[], 0, Flatten(tokens))
  {
    var tokens := Tokenize(TokenizerOf(cv), ops, docs);
    var vocabulary;
    vocabulary, x := CountTokens(tokens);
    FreshAssignment(Flatten(tokens), vocabulary);
    fitted := cv.(vocabulary := vocabulary);
  }

  // ---------------------------------------------------------------------
  // Fitting a vectorizer that already has a vocabulary
  // ---------------------------------------------------------------------

  /** The id assignment of `fit_transform` as written, over the token
      stream: it starts from the vectorizer's current vocabulary, but the id
      counter starts at `indexer` (0 in the source) whatever that vocabulary
      holds. Known tokens keep their ids; each new token gets the counter. */
  function AssignIds(vocabulary: map<string, nat>, indexer: nat, tokens: seq<string>): (r: map<string, nat>)
    ensures forall t :: t in vocabulary ==> t in r && r[t] == vocabulary[t]
    ensures forall t :: t in r <==> t in vocabulary || t in tokens
    decreases |tokens|
  {
    if |tokens| == 0 then vocabulary
    else if tokens[0] in vocabulary then AssignIds(vocabulary, indexer, tokens[1..])
    else AssignIds(vocabulary[tokens[0] := indexer], indexer + 1, tokens[1..])
  }

  /** Fitting a vectorizer that already holds a token with id 0 on
      documents whose first token is new gives that new token id 0 as well:
      two tokens share one column of the count matrix. */
  lemma RefitSharesIds(vocabulary: map<string, nat>, u: string, tokens: seq<string>)
    requires u in vocabulary && vocabulary[u] == 0
    requires |tokens| > 0 && tokens[0] !in vocabulary
    ensures var r := AssignIds(vocabulary, 0, tokens);
      && u in r && tokens[0] in r && u != tokens[0] && r[u] == r[tokens[0]] == 0
      && !Injective(r)
  {
    var r := AssignIds(vocabulary, 0, tokens);
    assert AssignIds(vocabulary, 0, tokens) == AssignIds(vocabulary[tokens[0] := 0], 1, tokens[1..]);
  }

  /** A token joins the first occurrences exactly when it is new. */
  lemma FirstSeenSnoc(seen: seq<string>, t: string)
    ensures FirstSeen(seen + [t]) == if t in seen then FirstSeen(seen) else FirstSeen(seen) + [t]
  {
    assert (seen + [t])[..|seen|] == seen;
    FirstSeenElements(seen);
  }

  /** Kept apart from `AssignIdsFollowFirstSeen` for solver cost, as above. */
  lemma SnocRest(seen: seq<string>, tokens: seq<string>)
    requires |tokens| > 0
    ensures seen + [tokens[0]] + tokens[1..] == seen + tokens
  {
  }

  /** One token of the assignment as written, continuing from ids that
      follow first occurrence: `v'` is the vocabulary after the token and
      `seen'` the stream including it. */
  lemma AssignStep(vocabulary: map<string, nat>, seen: seq<string>, tokens: seq<string>,
                   v': map<string, nat>, seen': seq<string>)
    requires IndexedBy(vocabulary, FirstSeen(seen)) && |tokens| > 0
    requires v' == if tokens[0] in vocabulary then vocabulary else vocabulary[tokens[0] := |FirstSeen(seen)|]
    requires seen' == seen + [tokens[0]]
    ensures IndexedBy(v', FirstSeen(seen'))
    ensures AssignIds(vocabulary, |FirstSeen(seen)|, tokens) == AssignIds(v', |FirstSeen(seen')|, tokens[1..])
  {
    var t := tokens[0];
    FirstSeenSnoc(seen, t);
    assert t in vocabulary <==> t in seen by {
      FirstSeenElements(seen);
    }
    if t !in vocabulary {
      AppendIndexed(vocabulary, FirstSeen(seen), t);
    }
  }

  /** Continuing from ids that follow first occurrence, with the counter
      at the number of tokens seen, the assignment as written keeps
      following first occurrence. */
  lemma {:induction false} AssignIdsFollowFirstSeen(vocabulary: map<string, nat>, seen: seq<string>, tokens: seq<string>)
    requires IndexedBy(vocabulary, FirstSeen(seen))
    ensures IndexedBy(AssignIds(vocabulary, |FirstSeen(seen)|, tokens), FirstSeen(seen + tokens))
    decreases |tokens|
  {
    if |tokens| > 0 {
      var v' := if tokens[0] in vocabulary then vocabulary else vocabulary[tokens[0] := |FirstSeen(seen)|];
      var seen' := seen + [tokens[0]];
      AssignStep(vocabulary, seen, tokens, v', seen');
      AssignIdsFollowFirstSeen(v', seen', tokens[1..]);
      SnocRest(seen, tokens);
    } else {
      assert seen + tokens == seen;
    }
  }

  /** Two vocabularies indexed by the same token list are equal. */
  lemma IndexedUnique(a: map<string, nat>, b: map<string, nat>, order: seq<string>)
    requires IndexedBy(a, order) && IndexedBy(b, order)
    ensures a == b
  {
    forall t | t in a ensures t in b && a[t] == b[t] {
      var j :| 0 <= j < |order| && order[j] == t;
    }
    forall t | t in b ensures t in a {
      var j :| 0 <= j < |order| && order[j] == t;
    }
  }

  /** On a new vectorizer the assignment as written gives the vocabulary
      that the corrected `FitTransform` computes. */
  lemma FreshAssignment(tokens: seq<string>, vocabulary: map<string, nat>)
    requires IndexedBy(vocabulary, FirstSeen(tokens))
    ensures AssignIds(map[], 0, tokens) == vocabulary
  {
    assert [] + tokens == tokens;
    AssignIdsFollowFirstSeen(map[], [], tokens);
    IndexedUnique(AssignIds(map[], 0, tokens), vocabulary, FirstSeen(tokens));
  }
}
