/** The Tf-Idf vectorizer: count the documents with a fresh count
    vectorizer, turn counts into term frequencies, weight every column by its
    inverse document frequency (a product with a diagonal matrix), and
    L2-normalise each row. The natural logarithm and the square root are
    parameters: the model makes no claim about their values except where a
    lemma names the property it relies on. */
module TfidfVectorization {
  import opened Arrays
  import opened Outcomes
  import opened Tokenization
  import opened CountVectorization
  import opened NdarrayExtension

  /** A Tf-Idf vectorizer: its vocabulary, the tokenizer settings, and the
      weighting options. `norm` is recorded but the transform always uses
      the L2 norm. */
  datatype TfidfVectorizer = TfidfVectorizer(
    vocabulary: map<string, nat>, minN: nat, maxN: nat, letterCase: string,
    smoothIdf: bool, sublinearTf: bool, norm: string)

  /** The divisions by zero the floating-point source would turn into
      non-finite entries: an unsmoothed document frequency of 0, and a row
      whose weighted L2 norm is 0. */
  datatype TfidfError = IdfDivisionByZero(column: nat) | NormDivisionByZero(row: nat)

  /** A new vectorizer: empty vocabulary, smoothed idf, raw term
      frequencies, L2 norm. */
  function NewTfidfVectorizer(minN: nat, maxN: nat, letterCase: string): (tv: TfidfVectorizer)
    ensures tv.vocabulary == map[]
    ensures tv.minN == minN && tv.maxN == maxN && tv.letterCase == letterCase
    ensures tv.smoothIdf && !tv.sublinearTf && tv.norm == "l2"
  {
    TfidfVectorizer(map[], minN, maxN, letterCase, true, false, "l2")
  }

  /** The count vectorizer built from the vectorizer's tokenizer settings. */
  function CountSettings(tv: TfidfVectorizer): CountVectorizer
  {
    NewCountVectorizer(tv.minN, tv.maxN, tv.letterCase)
  }

  /** Count the documents with a fresh count vectorizer and adopt its
      vocabulary, whatever vocabulary this vectorizer held before. */
  method CreateCountvector(tv: TfidfVectorizer, ops: TextOps, docs: seq<string>)
    returns (fitted: TfidfVectorizer, x: seq<seq<nat>>)
    ensures fitted == tv.(vocabulary := fitted.vocabulary)
    ensures var tokens := Tokenize(TokenizerOf(CountSettings(tv)), ops, docs);
      && IndexedBy(fitted.vocabulary, FirstSeen(Flatten(tokens)))
      && |fitted.vocabulary| == |FirstSeen(Flatten(tokens))|
      && (forall t :: t in fitted.vocabulary <==> t in Flatten(tokens))
      && Shape(x, |docs|, |fitted.vocabulary|)
      && (forall i, t :: 0 <= i < |x| && t in fitted.vocabulary ==> x[i][fitted.vocabulary[t]] == multiset(tokens[i])[t])
      && (forall i :: 0 <= i < |x| ==> Sum(x[i]) == |tokens[i]|)
      && (forall j :: 0 <= j < |fitted.vocabulary| ==> ColumnUsed(x, j))
  {
    var cv;
    cv, x := CountVectorization.FitTransform(CountSettings(tv), ops, docs);
    fitted := tv.(vocabulary := cv.vocabulary);
  }

  // ---------------------------------------------------------------------
  // Term frequency
  // ---------------------------------------------------------------------

  /** The counts as reals; with `sublinearTf`, every entry `c` becomes
      `ln(c) + 1` instead. */
  function TermFrequency(tv: TfidfVectorizer, x: seq<seq<nat>>, ln: real -> real): (tf: seq<seq<real>>)
    ensures |tf| == |x| && forall i :: 0 <= i < |x| ==> |tf[i]| == |x[i]|
    ensures !tv.sublinearTf ==> forall i, j :: 0 <= i < |x| && 0 <= j < |x[i]| ==> tf[i][j] == x[i][j] as real
    ensures tv.sublinearTf ==> forall i, j :: 0 <= i < |x| && 0 <= j < |x[i]| ==> tf[i][j] == ln(x[i][j] as real) + 1.0
  {
    seq(|x|, i requires 0 <= i < |x| =>
      seq(|x[i]|, j requires 0 <= j < |x[i]| =>
        if tv.sublinearTf then ln(x[i][j] as real) + 1.0 else x[i][j] as real))
  }

  lemma {:induction false} RealSumOfCounts(row: seq<nat>, r: seq<real>)
    requires |r| == |row| && forall j :: 0 <= j < |row| ==> r[j] == row[j] as real
    ensures RealSum(r) == Sum(row) as real
  {
    if |row| > 0 {
      RealSumOfCounts(row[1..], r[1..]);
    }
  }

  /** Without sublinear scaling, each row of term frequencies sums to the
      row's total count. */
  lemma TermFrequencyRowSum(tv: TfidfVectorizer, x: seq<seq<nat>>, ln: real -> real)
    requires !tv.sublinearTf
    ensures forall i :: 0 <= i < |x| ==> RealSum(TermFrequency(tv, x, ln)[i]) == Sum(x[i]) as real
  {
    var tf := TermFrequency(tv, x, ln);
    forall i | 0 <= i < |x| ensures RealSum(tf[i]) == Sum(x[i]) as real {
      RealSumOfCounts(x[i], tf[i]);
    }
  }

  // ---------------------------------------------------------------------
  // Document frequency
  // ---------------------------------------------------------------------

  /** The number of the first `n` rows with a nonzero entry in column `j`. */
  function NonzeroRows(x: seq<seq<nat>>, j: nat, n: nat): (c: nat)
    requires n <= |x| && forall i :: 0 <= i < n ==> j < |x[i]|
    ensures c <= n
  {
    if n == 0 then 0 else NonzeroRows(x, j, n - 1) + (if x[n - 1][j] != 0 then 1 else 0)
  }

  /** For every column, the number of documents (rows) that contain its
      token at least once. */
  function DocumentFrequency(x: seq<seq<nat>>, cols: nat): (df: seq<nat>)
    requires Shape(x, |x|, cols)
    ensures |df| == cols
    ensures forall j :: 0 <= j < cols ==> df[j] <= |x|
  {
    seq(cols, j requires 0 <= j < cols => NonzeroRows(x, j, |x|))
  }

  lemma {:induction false} NonzeroRowsIsCardinality(x: seq<seq<nat>>, j: nat, n: nat)
    requires n <= |x| && forall i :: 0 <= i < n ==> j < |x[i]|
    ensures NonzeroRows(x, j, n) == |set i | 0 <= i < n && x[i][j] != 0|
  {
    var s' := set i | 0 <= i < n && x[i][j] != 0;
    if n == 0 {
      assert s' == {};
    } else {
      NonzeroRowsIsCardinality(x, j, n - 1);
      var s := set i | 0 <= i < n - 1 && x[i][j] != 0;
      if x[n - 1][j] != 0 {
        assert s' == s + {n - 1};
        assert n - 1 !in s;
      } else {
        assert s' == s;
      }
    }
  }

  lemma {:induction false} NonzeroRowsPositive(x: seq<seq<nat>>, j: nat, n: nat)
    requires n <= |x| && forall i :: 0 <= i < n ==> j < |x[i]|
    ensures NonzeroRows(x, j, n) > 0 <==> exists i :: 0 <= i < n && x[i][j] > 0
  {
    if n > 0 {
      NonzeroRowsPositive(x, j, n - 1);
      if x[n - 1][j] > 0 {
        assert NonzeroRows(x, j, n) > 0;
      }
    }
  }

  /** The document frequency of column `j` is the number of rows whose entry
      in that column is nonzero. */
  lemma DocumentFrequencyCounts(x: seq<seq<nat>>, cols: nat)
    requires Shape(x, |x|, cols)
    ensures forall j :: 0 <= j < cols ==>
      DocumentFrequency(x, cols)[j] == |set i | 0 <= i < |x| && x[i][j] != 0|
  {
    forall j | 0 <= j < cols
      ensures DocumentFrequency(x, cols)[j] == |set i | 0 <= i < |x| && x[i][j] != 0|
    {
      NonzeroRowsIsCardinality(x, j, |x|);
    }
  }

  /** The document frequency of column `j` is positive exactly when some
      row uses the column. */
  lemma DocumentFrequencyPositive(x: seq<seq<nat>>, cols: nat)
    requires Shape(x, |x|, cols)
    ensures forall j :: 0 <= j < cols ==> (DocumentFrequency(x, cols)[j] > 0 <==> ColumnUsed(x, j))
  {
    forall j | 0 <= j < cols
      ensures DocumentFrequency(x, cols)[j] > 0 <==> ColumnUsed(x, j)
    {
      NonzeroRowsPositive(x, j, |x|);
    }
  }

  // ---------------------------------------------------------------------
  // Inverse document frequency
  // ---------------------------------------------------------------------

  /** `smooth_idf` as a number: 1 when smoothing, 0 otherwise. */
  function Smoother(smooth: bool): (s: nat)
    ensures s <= 1 && (s == 1 <==> smooth)
  {
    if smooth then 1 else 0
  }

  /** The number of samples over the smoothed document frequency: the
      argument of the logarithm in an idf weight. */
  function IdfRatio(rows: nat, df: nat, s: nat): real
    requires df + s > 0
  {
    (rows + s) as real / (df + s) as real
  }

  /** The idf weight of every column: `ln((n + s) / (df + s)) + 1` for `n`
      rows and smoother `s`. A column whose smoothed document frequency is
      0 is a division by zero, which only an unsmoothed vectorizer with an
      unused column can meet. */
  function IdfWeights(tv: TfidfVectorizer, x: seq<seq<nat>>, cols: nat, ln: real -> real)
    : (r: Result<seq<real>, TfidfError>)
    requires Shape(x, |x|, cols)
    ensures r.Failure? <==> !tv.smoothIdf && exists j :: 0 <= j < cols && !ColumnUsed(x, j)
    ensures r.Failure? ==> r.error.IdfDivisionByZero? && r.error.column < cols && !ColumnUsed(x, r.error.column)
    ensures r.Success? ==> |r.value| == cols && forall j :: 0 <= j < cols ==>
      && DocumentFrequency(x, cols)[j] + Smoother(tv.smoothIdf) > 0
      && r.value[j] == ln(IdfRatio(|x|, DocumentFrequency(x, cols)[j], Smoother(tv.smoothIdf))) + 1.0
  {
    var df := DocumentFrequency(x, cols);
    var s := Smoother(tv.smoothIdf);
    var smoothed := seq(cols, j requires 0 <= j < cols => (df[j] + s) as real);
    var zero := FirstZero(smoothed);
    DocumentFrequencyPositive(x, cols);
    if zero.Some? then
      assert smoothed[zero.value] == 0.0;
      Failure(IdfDivisionByZero(zero.value))
    else
      assert forall j :: 0 <= j < cols ==> df[j] + s > 0 by {
        forall j | 0 <= j < cols ensures df[j] + s > 0 {
          assert smoothed[j] != 0.0;
        }
      }
      Success(seq(cols, j requires 0 <= j < cols => ln(IdfRatio(|x|, df[j], s)) + 1.0))
  }

  /** The ratio inside the logarithm is at least 1 (a column is used by at
      most all rows), and a column used by fewer rows gets a ratio at least
      as large: rarer tokens weigh more whenever `ln` is monotone. */
  lemma IdfRatioOrder(tv: TfidfVectorizer, x: seq<seq<nat>>, cols: nat, j: nat, k: nat)
    requires Shape(x, |x|, cols) && j < cols && k < cols
    requires tv.smoothIdf || (ColumnUsed(x, j) && ColumnUsed(x, k))
    ensures var s := Smoother(tv.smoothIdf);
      var df := DocumentFrequency(x, cols);
      && df[j] + s > 0 && df[k] + s > 0
      && IdfRatio(|x|, df[j], s) >= 1.0
      && (df[j] <= df[k] ==> IdfRatio(|x|, df[j], s) >= IdfRatio(|x|, df[k], s))
  {
    DocumentFrequencyPositive(x, cols);
    var df := DocumentFrequency(x, cols);
    RatioBounds(|x|, df[j], df[k], Smoother(tv.smoothIdf));
  }

  lemma RatioBounds(rows: nat, a: nat, b: nat, s: nat)
    requires 0 < a + s && a <= rows && b <= rows && 0 < b + s
    ensures IdfRatio(rows, a, s) >= 1.0
    ensures a <= b ==> IdfRatio(rows, a, s) >= IdfRatio(rows, b, s)
  {
    var n := (rows + s) as real;
    var p := (a + s) as real;
    var q := (b + s) as real;
    QuotientAtLeastOne(n, p);
    if a <= b {
      QuotientAntitone(n, p, q);
    }
  }

  lemma QuotientAtLeastOne(n: real, p: real)
    requires 0.0 < p <= n
    ensures n / p >= 1.0
  {
    var r := n / p;
    assert r * p == n;
    assert (r - 1.0) * p == n - p;
  }

  lemma QuotientAntitone(n: real, p: real, q: real)
    requires 0.0 < p <= q && 0.0 <= n
    ensures n / p >= n / q
  {
    var r := n / p;
    var t := n / q;
    assert r * p == n && t * q == n;
    assert t >= 0.0;
    assert t * p <= t * q;
    assert (r - t) * p == n - t * p;
  }

  // ---------------------------------------------------------------------
  // The transform
  // ---------------------------------------------------------------------

  /** The term frequencies with column `j` multiplied by the idf weight
      `idf[j]`. */
  function Weighted(tv: TfidfVectorizer, x: seq<seq<nat>>, cols: nat, ln: real -> real, idf: seq<real>)
    : (w: seq<seq<real>>)
    requires Shape(x, |x|, cols) && |idf| == cols
    ensures Shape(w, |x|, cols)
    ensures forall i, j :: 0 <= i < |x| && 0 <= j < cols ==> w[i][j] == TermFrequency(tv, x, ln)[i][j] * idf[j]
  {
    ScaleColumns(TermFrequency(tv, x, ln), idf)
  }

  /** A normalisation outcome with a zero-norm row reported as a Tf-Idf error. */
  function AsTfidfError(n: Result<seq<seq<real>>, NormError>): (r: Result<seq<seq<real>>, TfidfError>)
    ensures r.Success? <==> n.Success?
    ensures r.Success? ==> r.value == n.value
    ensures r.Failure? ==> r.error == NormDivisionByZero(n.error.row)
  {
    match n
    case Success(y) => Success(y)
    case Failure(e) => Failure(NormDivisionByZero(e.row))
  }

  /** The Tf-Idf matrix by its definition: term frequencies with every
      column scaled by its idf weight, then each row divided by its L2 norm.
      An idf division by zero, or else the first row with entries whose
      norm is 0, is reported instead; with no columns every row is empty
      and divides to an empty row. */
  function Tfidf(tv: TfidfVectorizer, x: seq<seq<nat>>, cols: nat,
                 ln: real -> real, sqrt: real -> real)
    : (r: Result<seq<seq<real>>, TfidfError>)
    requires Shape(x, |x|, cols)
    ensures r.Success? ==> Shape(r.value, |x|, cols)
    ensures var idf := IdfWeights(tv, x, cols, ln);
      idf.Failure? ==> r == Failure(idf.error)
    ensures var idf := IdfWeights(tv, x, cols, ln);
      idf.Success? ==>
        var norms := RowNorms(Weighted(tv, x, cols, ln, idf.value), sqrt);
        && (r.Success? <==> cols == 0 || forall i :: 0 <= i < |x| ==> norms[i] != 0.0)
        && (r.Failure? ==> cols > 0 && r.error.NormDivisionByZero? && r.error.row < |x| && norms[r.error.row] == 0.0)
  {
    match IdfWeights(tv, x, cols, ln)
    case Failure(e) => Failure(e)
    case Success(idf) => AsTfidfError(L2Normalize(Weighted(tv, x, cols, ln, idf), sqrt))
  }

  /** The transform as computed: the term frequencies times the diagonal
      matrix of idf weights, then L2 normalisation. The product with the
      diagonal matrix is the column scaling of the definition. */
  method TfidfTransform(tv: TfidfVectorizer, x: seq<seq<nat>>, cols: nat,
                        ln: real -> real, sqrt: real -> real)
    returns (r: Result<seq<seq<real>>, TfidfError>)
    requires Shape(x, |x|, cols)
    ensures r == Tfidf(tv, x, cols, ln, sqrt)
  {
    var weights := IdfWeights(tv, x, cols, ln);
    if weights.Failure? {
      return Failure(weights.error);
    }
    var idf := weights.value;
    var tf := TermFrequency(tv, x, ln);
    var product := Dot(tf, Vec2Diagonal(idf), cols);
    DotDiagonal(tf, idf);
    assert product == Weighted(tv, x, cols, ln, idf);
    r := AsTfidfError(L2Normalize(product, sqrt));
  }

  /** A successful transform holds, in row `i`, the term frequencies
      scaled by the idf weights and divided by the row's L2 norm, which is
      nonzero unless there are no columns. */
  lemma TfidfRows(tv: TfidfVectorizer, x: seq<seq<nat>>, cols: nat, ln: real -> real, sqrt: real -> real)
    requires Shape(x, |x|, cols)
    requires Tfidf(tv, x, cols, ln, sqrt).Success?
    ensures IdfWeights(tv, x, cols, ln).Success?
    ensures var y := Tfidf(tv, x, cols, ln, sqrt).value;
      var w := Weighted(tv, x, cols, ln, IdfWeights(tv, x, cols, ln).value);
      forall i :: 0 <= i < |x| ==>
        (cols == 0 || RowNorms(w, sqrt)[i] != 0.0) && y[i] == DividedRow(w[i], RowNorms(w, sqrt)[i])
  {
    var idf := IdfWeights(tv, x, cols, ln).value;
    var w := Weighted(tv, x, cols, ln, idf);
    assert Tfidf(tv, x, cols, ln, sqrt) == AsTfidfError(L2Normalize(w, sqrt));
  }

  // ---------------------------------------------------------------------
  // When the transform fails
  // ---------------------------------------------------------------------

  /** `ln` is nonnegative from 1 on, as the natural logarithm is. */
  ghost predicate LogLike(ln: real -> real)
  {
    forall q :: q >= 1.0 ==> ln(q) >= 0.0
  }

  /** `sqrt` is 0 on a nonnegative argument exactly at 0, as the square root is. */
  ghost predicate RootLike(sqrt: real -> real)
  {
    forall s :: s >= 0.0 ==> (sqrt(s) == 0.0 <==> s == 0.0)
  }

  /** A positive count times a weight of at least 1 is never 0. */
  lemma ScaledCount(c: nat, t: real, w: real, p: real)
    requires t == c as real && w >= 1.0 && p == t * w
    ensures p == 0.0 <==> c == 0
  {
    if c > 0 {
      ProductPositive(t, w, p);
    }
  }

  lemma {:induction false} SumZero(row: seq<nat>)
    ensures Sum(row) == 0 <==> forall j :: 0 <= j < |row| ==> row[j] == 0
  {
    if |row| > 0 {
      SumZero(row[1..]);
      if forall j :: 0 <= j < |row| ==> row[j] == 0 {
        assert forall j :: 0 <= j < |row[1..]| ==> row[1..][j] == 0;
      } else if row[0] == 0 {
        var k :| 0 <= k < |row| && row[k] != 0;
        assert row[1..][k - 1] != 0;
      }
    }
  }

  /** With a real logarithm every idf weight is at least 1. */
  lemma IdfAtLeastOne(tv: TfidfVectorizer, x: seq<seq<nat>>, cols: nat, ln: real -> real)
    requires Shape(x, |x|, cols)
    requires tv.smoothIdf || forall j :: 0 <= j < cols ==> ColumnUsed(x, j)
    requires LogLike(ln)
    ensures IdfWeights(tv, x, cols, ln).Success?
    ensures forall j :: 0 <= j < cols ==> IdfWeights(tv, x, cols, ln).value[j] >= 1.0
  {
    forall j | 0 <= j < cols ensures IdfWeights(tv, x, cols, ln).value[j] >= 1.0 {
      IdfRatioOrder(tv, x, cols, j, j);
    }
  }

  /** Without sublinear scaling and with weights of at least 1, a weighted
      entry is 0 exactly when its count is. */
  lemma WeightedZero(tv: TfidfVectorizer, x: seq<seq<nat>>, cols: nat, ln: real -> real, idf: seq<real>)
    requires Shape(x, |x|, cols) && |idf| == cols
    requires !tv.sublinearTf && forall j :: 0 <= j < cols ==> idf[j] >= 1.0
    ensures forall i, j :: 0 <= i < |x| && 0 <= j < cols ==>
      (Weighted(tv, x, cols, ln, idf)[i][j] == 0.0 <==> x[i][j] == 0)
  {
    var tf := TermFrequency(tv, x, ln);
    var weighted := Weighted(tv, x, cols, ln, idf);
    forall i, j | 0 <= i < |x| && 0 <= j < cols ensures weighted[i][j] == 0.0 <==> x[i][j] == 0 {
      ScaledCount(x[i][j], tf[i][j], idf[j], weighted[i][j]);
    }
  }

  /** With a real logarithm and square root and raw term frequencies, every
      idf weight is at least 1, so a row's weighted norm is 0 exactly when
      the row has no counts: the transform fails precisely on a document
      without tokens. */
  lemma ZeroNormIffEmptyRow(tv: TfidfVectorizer, x: seq<seq<nat>>, cols: nat,
                            ln: real -> real, sqrt: real -> real)
    requires Shape(x, |x|, cols)
    requires tv.smoothIdf || forall j :: 0 <= j < cols ==> ColumnUsed(x, j)
    requires !tv.sublinearTf && LogLike(ln) && RootLike(sqrt)
    ensures IdfWeights(tv, x, cols, ln).Success?
    ensures var r := Tfidf(tv, x, cols, ln, sqrt);
      && (r.Success? <==> cols == 0 || forall i :: 0 <= i < |x| ==> Sum(x[i]) > 0)
      && (r.Failure? ==> cols > 0 && r.error.NormDivisionByZero? && r.error.row < |x| && Sum(x[r.error.row]) == 0)
  {
    IdfAtLeastOne(tv, x, cols, ln);
    var idf := IdfWeights(tv, x, cols, ln).value;
    var weighted := Weighted(tv, x, cols, ln, idf);
    WeightedZero(tv, x, cols, ln, idf);
    var norms := RowNorms(weighted, sqrt);
    forall i | 0 <= i < |x| ensures norms[i] == 0.0 <==> Sum(x[i]) == 0 {
      SquaresSumZero(weighted[i]);
      SumZero(x[i]);
    }
  }

  /** Counts of tokenized documents, one column per distinct token, have
      no columns exactly when no document has a token. */
  lemma NoColumnsIffNoTokens(x: seq<seq<nat>>, cols: nat, tokens: seq<seq<string>>)
    requires Shape(x, |tokens|, cols)
    requires forall i :: 0 <= i < |x| ==> Sum(x[i]) == |tokens[i]|
    requires forall j :: 0 <= j < cols ==> ColumnUsed(x, j)
    ensures cols == 0 <==> forall i :: 0 <= i < |tokens| ==> |tokens[i]| == 0
  {
    if cols == 0 {
      forall i | 0 <= i < |tokens| ensures |tokens[i]| == 0 {
        assert x[i] == [];
      }
    } else {
      assert ColumnUsed(x, 0);
      var i :| 0 <= i < |x| && x[i][0] > 0;
      SumZero(x[i]);
    }
  }

  /** Over the counts of tokenized documents, the transform fails exactly
      when some document has no tokens while another has some, and then
      names a document without tokens. */
  lemma EmptyDocumentFails(tv: TfidfVectorizer, x: seq<seq<nat>>, cols: nat,
                           ln: real -> real, sqrt: real -> real, tokens: seq<seq<string>>)
    requires Shape(x, |tokens|, cols)
    requires forall i :: 0 <= i < |x| ==> Sum(x[i]) == |tokens[i]|
    requires forall j :: 0 <= j < cols ==> ColumnUsed(x, j)
    requires !tv.sublinearTf && LogLike(ln) && RootLike(sqrt)
    ensures var r := Tfidf(tv, x, cols, ln, sqrt);
      && (r.Success? <==> cols == 0 || forall i :: 0 <= i < |tokens| ==> |tokens[i]| > 0)
      && (r.Failure? <==>
            (exists i :: 0 <= i < |tokens| && |tokens[i]| == 0) && (exists i :: 0 <= i < |tokens| && |tokens[i]| > 0))
      && (r.Failure? ==> r.error.NormDivisionByZero? && r.error.row < |tokens| && |tokens[r.error.row]| == 0)
  {
    ZeroNormIffEmptyRow(tv, x, cols, ln, sqrt);
    NoColumnsIffNoTokens(x, cols, tokens);
  }

  // ---------------------------------------------------------------------
  // fit_transform
  // ---------------------------------------------------------------------

  /** Fit the vocabulary on the documents and return their Tf-Idf matrix,
      one row per document and one column per distinct token, together with
      the count matrix it was computed from. */
  method FitTransform(tv: TfidfVectorizer, ops: TextOps, docs: seq<string>,
                      ln: real -> real, sqrt: real -> real)
    returns (fitted: TfidfVectorizer, x: seq<seq<nat>>, r: Result<seq<seq<real>>, TfidfError>)
    ensures fitted == tv.(vocabulary := fitted.vocabulary)
    ensures Shape(x, |docs|, |fitted.vocabulary|)
    ensures r == Tfidf(fitted, x, |fitted.vocabulary|, ln, sqrt)
    ensures var tokens := Tokenize(TokenizerOf(CountSettings(tv)), ops, docs);
      && IndexedBy(fitted.vocabulary, FirstSeen(Flatten(tokens)))
      && |fitted.vocabulary| == |FirstSeen(Flatten(tokens))|
      && (forall t :: t in fitted.vocabulary <==> t in Flatten(tokens))
      && (forall i, t :: 0 <= i < |x| && t in fitted.vocabulary ==>
            x[i][fitted.vocabulary[t]] == multiset(tokens[i])[t])
    ensures r.Success? ==> Shape(r.value, |docs|, |fitted.vocabulary|)
    ensures r.Failure? ==> r.error.NormDivisionByZero? && r.error.row < |docs|
    ensures var tokens := Tokenize(TokenizerOf(CountSettings(tv)), ops, docs);
      && (|fitted.vocabulary| == 0 <==> forall i :: 0 <= i < |docs| ==> |tokens[i]| == 0)
      && (!tv.sublinearTf && LogLike(ln) && RootLike(sqrt) ==>
            && (r.Success? <==> |fitted.vocabulary| == 0 || forall i :: 0 <= i < |docs| ==> |tokens[i]| > 0)
            && (r.Failure? ==> |tokens[r.error.row]| == 0))
  {
    fitted, x := CreateCountvector(tv, ops, docs);
    var cols := |fitted.vocabulary|;
    var tokens := Tokenize(TokenizerOf(CountSettings(tv)), ops, docs);
    r := TfidfTransform(fitted, x, cols, ln, sqrt);
    assert IdfWeights(fitted, x, cols, ln).Success?;
    NoColumnsIffNoTokens(x, cols, tokens);
    if !tv.sublinearTf && LogLike(ln) && RootLike(sqrt) {
      EmptyDocumentFails(fitted, x, cols, ln, sqrt, tokens);
    }
  }
}
