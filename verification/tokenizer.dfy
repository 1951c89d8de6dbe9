/** The tokenizer: extraction of words from a document, expansion of the words
    into n-grams, and the case option applied to every n-gram. */
module Tokenization {

  /** The text primitives the tokenizer takes from its libraries and that this
      model leaves abstract: the Unicode word-character class `\w` of the
      regular expression engine, and the Unicode upper- and lower-case
      conversions of a string. */
  datatype TextOps = TextOps(isWord: char -> bool, upper: string -> string, lower: string -> string)

  /** A tokenizer: the inclusive range `minN..maxN` of n-gram sizes and the
      case option ("upper", "lower", anything else meaning no conversion). */
  datatype Tokenizer = Tokenizer(minN: nat, maxN: nat, letterCase: string)

  /** Construction accepts every range, even an empty one or one starting at
      0; those only print a warning. */
  function NewTokenizer(minN: nat, maxN: nat, letterCase: string): (tk: Tokenizer)
    ensures tk.minN == minN && tk.maxN == maxN && tk.letterCase == letterCase
  {
    Tokenizer(minN, maxN, letterCase)
  }

  function Min(a: nat, b: nat): nat
  {
    if a <= b then a else b
  }

  // ---------------------------------------------------------------------
  // Word extraction
  // ---------------------------------------------------------------------

  /** The end of the run of word characters starting at `i`: the first
      position at or after `i` that holds no word character. */
  function RunEnd(doc: string, isWord: char -> bool, i: nat): (j: nat)
    requires i <= |doc|
    ensures i <= j <= |doc|
    ensures forall k :: i <= k < j ==> isWord(doc[k])
    ensures j == |doc| || !isWord(doc[j])
    decreases |doc| - i
  {
    if i == |doc| || !isWord(doc[i]) then i else RunEnd(doc, isWord, i + 1)
  }

  /** The words of `doc[i..]`, left to right: every maximal run of word
      characters of length at least two, as the pattern `\b\w\w+\b` finds them. */
  function WordsFrom(doc: string, isWord: char -> bool, i: nat): (ws: seq<string>)
    requires i <= |doc|
    ensures forall w :: w in ws ==> |w| >= 2 && forall c :: c in w ==> isWord(c)
    decreases |doc| - i
  {
    if i == |doc| then []
    else if !isWord(doc[i]) then WordsFrom(doc, isWord, i + 1)
    else
      var j := RunEnd(doc, isWord, i);
      (if j - i >= 2 then [doc[i..j]] else []) + WordsFrom(doc, isWord, j)
  }

  function Words(doc: string, isWord: char -> bool): seq<string>
  {
    WordsFrom(doc, isWord, 0)
  }

  /** A run is kept as a word only when it has at least two characters. */
  function Emit(run: string): seq<string>
  {
    if |run| >= 2 then [run] else []
  }

  /** Reference reading of word extraction as a one-pass scanner over the
      characters: `run` holds the word characters read since the last
      character that is not one. */
  function Scan(rest: string, run: string, isWord: char -> bool): seq<string>
    decreases |rest|
  {
    if |rest| == 0 then Emit(run)
    else if isWord(rest[0]) then Scan(rest[1..], run + [rest[0]], isWord)
    else Emit(run) + Scan(rest[1..], [], isWord)
  }

  /** Scanning from inside the run `doc[i..j]`, having read `run`, finishes
      that run and continues after the character that ends it. */
  lemma {:induction false} ScanFinishesRun(doc: string, isWord: char -> bool, i: nat, j: nat, k: nat, run: string)
    requires i <= |doc| && j == RunEnd(doc, isWord, i)
    requires i <= k <= j && run == doc[i..k]
    ensures j < |doc| ==> Scan(doc[k..], run, isWord) == Emit(doc[i..j]) + Scan(doc[j + 1..], [], isWord)
    ensures j == |doc| ==> Scan(doc[k..], run, isWord) == Emit(doc[i..j])
    decreases |doc| - k
  {
    if k == j {
      if j < |doc| {
        assert doc[k..][1..] == doc[j + 1..];
      }
    } else {
      assert doc[k..][1..] == doc[k + 1..];
      assert run + [doc[k..][0]] == doc[i..k + 1];
      ScanFinishesRun(doc, isWord, i, j, k + 1, doc[i..k + 1]);
    }
  }

  /** At a word character, word extraction emits the run `doc[i..j]`
      starting there and resumes after the character that ends it. */
  lemma WordsFromRun(doc: string, isWord: char -> bool, i: nat, j: nat)
    requires i < |doc| && isWord(doc[i]) && j == RunEnd(doc, isWord, i)
    ensures j < |doc| ==> WordsFrom(doc, isWord, i) == Emit(doc[i..j]) + WordsFrom(doc, isWord, j + 1)
    ensures j == |doc| ==> WordsFrom(doc, isWord, i) == Emit(doc[i..j])
  {
    assert WordsFrom(doc, isWord, i) == Emit(doc[i..j]) + WordsFrom(doc, isWord, j);
  }

  /** At a word character, the scanner emits the run `doc[i..j]` starting
      there and resumes after the character that ends it. */
  lemma ScanRun(doc: string, isWord: char -> bool, i: nat, j: nat)
    requires i < |doc| && isWord(doc[i]) && j == RunEnd(doc, isWord, i)
    ensures j < |doc| ==> Scan(doc[i..], [], isWord) == Emit(doc[i..j]) + Scan(doc[j + 1..], [], isWord)
    ensures j == |doc| ==> Scan(doc[i..], [], isWord) == Emit(doc[i..j])
  {
    ScanFinishesRun(doc, isWord, i, j, i, []);
  }

  /** Word extraction and the scanner agree from a word character on when
      they agree after the run that starts there. */
  lemma RunAgrees(doc: string, isWord: char -> bool, i: nat, j: nat)
    requires i < |doc| && isWord(doc[i]) && j == RunEnd(doc, isWord, i)
    requires j < |doc| ==> WordsFrom(doc, isWord, j + 1) == Scan(doc[j + 1..], [], isWord)
    ensures WordsFrom(doc, isWord, i) == Scan(doc[i..], [], isWord)
  {
    WordsFromRun(doc, isWord, i, j);
    ScanRun(doc, isWord, i, j);
  }

  /** Word extraction and the scanner agree from a character that is not
      a word character on when they agree after it. */
  lemma SkipAgrees(doc: string, isWord: char -> bool, i: nat)
    requires i < |doc| && !isWord(doc[i])
    requires WordsFrom(doc, isWord, i + 1) == Scan(doc[i + 1..], [], isWord)
    ensures WordsFrom(doc, isWord, i) == Scan(doc[i..], [], isWord)
  {
    assert doc[i..][1..] == doc[i + 1..];
  }

  /** Word extraction agrees with the one-pass scanner on every suffix. */
  lemma {:induction false} WordsFromIsScan(doc: string, isWord: char -> bool, i: nat)
    requires i <= |doc|
    ensures WordsFrom(doc, isWord, i) == Scan(doc[i..], [], isWord)
    decreases |doc| - i
  {
    if i == |doc| {
    } else if !isWord(doc[i]) {
      WordsFromIsScan(doc, isWord, i + 1);
      SkipAgrees(doc, isWord, i);
    } else {
      var j := RunEnd(doc, isWord, i);
      if j < |doc| {
        WordsFromIsScan(doc, isWord, j + 1);
        RunAgrees(doc, isWord, i, j);
      } else {
        RunAgrees(doc, isWord, i, j);
      }
    }
  }

  /** The words of a document are exactly what the scanner emits. */
  lemma WordsAreScan(doc: string, isWord: char -> bool)
    ensures Words(doc, isWord) == Scan(doc, [], isWord)
  {
    WordsFromIsScan(doc, isWord, 0);
    assert doc[0..] == doc;
  }

  /** Words extraction depends only on the text from the starting position on. */
  lemma {:induction false} RunEndShift(a: string, b: string, isWord: char -> bool, i: nat, j: nat)
    requires i <= |a| && j <= |b| && a[i..] == b[j..]
    ensures RunEnd(a, isWord, i) - i == RunEnd(b, isWord, j) - j
    decreases |a| - i
  {
    if i < |a| {
      assert a[i] == a[i..][0] == b[j..][0] == b[j];
      if isWord(a[i]) {
        assert a[i + 1..] == a[i..][1..];
        assert b[j + 1..] == b[j..][1..];
        RunEndShift(a, b, isWord, i + 1, j + 1);
      }
    }
  }

  lemma {:induction false} WordsFromShift(a: string, b: string, isWord: char -> bool, i: nat, j: nat)
    requires i <= |a| && j <= |b| && a[i..] == b[j..]
    ensures WordsFrom(a, isWord, i) == WordsFrom(b, isWord, j)
    decreases |a| - i
  {
    if i < |a| {
      assert a[i] == a[i..][0] == b[j..][0] == b[j];
      if !isWord(a[i]) {
        assert a[i + 1..] == a[i..][1..];
        assert b[j + 1..] == b[j..][1..];
        WordsFromShift(a, b, isWord, i + 1, j + 1);
      } else {
        var e := RunEnd(a, isWord, i);
        RunEndShift(a, b, isWord, i, j);
        var e' := RunEnd(b, isWord, j);
        assert a[i..e] == a[i..][..e - i] == b[j..][..e' - j] == b[j..e'];
        assert a[e..] == a[i..][e - i..] == b[j..][e' - j..] == b[e'..];
        WordsFromShift(a, b, isWord, e, e');
      }
    }
  }

  lemma {:induction false} SkipSeparators(doc: string, isWord: char -> bool, j: nat, next: nat)
    requires j <= next <= |doc|
    requires forall k :: j <= k < next ==> !isWord(doc[k])
    ensures WordsFrom(doc, isWord, j) == WordsFrom(doc, isWord, next)
    decreases next - j
  {
    if j < next {
      SkipSeparators(doc, isWord, j + 1, next);
    }
  }

  /** A word of at least two word characters followed by a nonempty run of
      other characters is extracted, and extraction goes on after the run. */
  lemma WordsCons(w: string, sep: string, rest: string, isWord: char -> bool)
    requires |w| >= 2 && forall c :: c in w ==> isWord(c)
    requires |sep| >= 1 && forall c :: c in sep ==> !isWord(c)
    ensures Words(w + sep + rest, isWord) == [w] + Words(rest, isWord)
  {
    var doc := w + sep + rest;
    assert doc[..|w|] == w;
    assert RunEnd(doc, isWord, 0) == |w| by {
      assert doc[|w|] == sep[0];
    }
    SkipSeparators(doc, isWord, |w|, |w| + |sep|);
    assert doc[|w| + |sep|..] == rest[0..];
    WordsFromShift(doc, rest, isWord, |w| + |sep|, 0);
  }

  /** The words interleaved with the separators: word, separator, word, ... */
  function Interleave(words: seq<string>, seps: seq<string>): string
    requires |words| >= 1 && |seps| == |words| - 1
  {
    if |words| == 1 then words[0] else words[0] + seps[0] + Interleave(words[1..], seps[1..])
  }

  /** Words of two or more word characters, separated by nonempty runs of
      other characters, are extracted exactly, in order. */
  lemma {:induction false} WordsOfInterleave(words: seq<string>, seps: seq<string>, isWord: char -> bool)
    requires |words| >= 1 && |seps| == |words| - 1
    requires forall i :: 0 <= i < |words| ==> |words[i]| >= 2 && forall c :: c in words[i] ==> isWord(c)
    requires forall i :: 0 <= i < |seps| ==> |seps[i]| >= 1 && forall c :: c in seps[i] ==> !isWord(c)
    ensures Words(Interleave(words, seps), isWord) == words
    decreases |words|
  {
    if |words| == 1 {
      var w := words[0];
      var j := RunEnd(w, isWord, 0);
      assert w[0] in w;
      WordsFromRun(w, isWord, 0, j);
      assert w[0..j] == w;
    } else {
      WordsOfInterleave(words[1..], seps[1..], isWord);
      WordsCons(words[0], seps[0], Interleave(words[1..], seps[1..]), isWord);
    }
  }

  // ---------------------------------------------------------------------
  // Joining and splitting on a single space
  // ---------------------------------------------------------------------

  /** The words joined with one space between neighbours. */
  function Join(ws: seq<string>): string
  {
    if |ws| == 0 then ""
    else if |ws| == 1 then ws[0]
    else ws[0] + " " + Join(ws[1..])
  }

  /** The pieces of `s` between its spaces, empty pieces included. */
  function Split(s: string): (parts: seq<string>)
    ensures |parts| >= 1
    decreases |s|
  {
    if |s| == 0 then [""]
    else
      var rest := Split(s[1..]);
      if s[0] == ' ' then [""] + rest else [[s[0]] + rest[0]] + rest[1..]
  }

  lemma {:induction false} SplitWord(w: string, tail: string)
    requires ' ' !in w
    ensures Split(w + tail) == [w + Split(tail)[0]] + Split(tail)[1..]
    decreases |w|
  {
    if |w| > 0 {
      assert (w + tail)[1..] == w[1..] + tail;
      SplitWord(w[1..], tail);
      assert [w[0]] + (w[1..] + Split(tail)[0]) == w + Split(tail)[0];
    } else {
      assert w + tail == tail;
      assert w + Split(tail)[0] == Split(tail)[0];
    }
  }

  /** Splitting a join on spaces gives back the words, provided there is at
      least one word and none of them contains a space. */
  lemma {:induction false} SplitJoin(ws: seq<string>)
    requires |ws| >= 1
    requires forall w :: w in ws ==> ' ' !in w
    ensures Split(Join(ws)) == ws
    decreases |ws|
  {
    if |ws| == 1 {
      SplitWord(ws[0], "");
      assert ws[0] + "" == ws[0];
    } else {
      var tail := " " + Join(ws[1..]);
      assert Join(ws) == ws[0] + tail;
      SplitWord(ws[0], tail);
      assert tail[1..] == Join(ws[1..]);
      assert ws[1..][0] in ws;
      assert forall w :: w in ws[1..] ==> w in ws;
      SplitJoin(ws[1..]);
      assert Split(tail) == [""] + ws[1..];
      assert ws[0] + "" == ws[0];
    }
  }

  // ---------------------------------------------------------------------
  // N-gram expansion
  // ---------------------------------------------------------------------

  /** All windows of `n` consecutive words, joined, by increasing start. */
  function Windows(tokens: seq<string>, n: nat): seq<string>
    requires n <= |tokens|
  {
    seq(|tokens| - n + 1, i requires 0 <= i < |tokens| - n + 1 => Join(tokens[i..i + n]))
  }

  /** The windows of every size from `lo` up to, not including, `hi`, grouped
      by size in increasing order. */
  function Groups(tokens: seq<string>, lo: nat, hi: nat): seq<string>
    requires hi <= |tokens| + 1
    decreases hi - lo
  {
    if lo >= hi then [] else Windows(tokens, lo) + Groups(tokens, lo + 1, hi)
  }

  /** Exclusive upper end of the sizes expanded for `k` words. */
  function SizeLimit(tk: Tokenizer, k: nat): nat
  {
    Min(tk.maxN + 1, k + 1)
  }

  /** The n-grams of the words `tokens`: every size `n` from `minN` to
      `min(maxN, |tokens|)`, and within a size every start position. The
      result is empty exactly when the range is empty or starts beyond the
      number of words. */
  function WordNgrams(tk: Tokenizer, tokens: seq<string>): (ngrams: seq<string>)
    ensures ngrams == [] <==> tk.minN > tk.maxN || tk.minN > |tokens|
  {
    Groups(tokens, tk.minN, SizeLimit(tk, |tokens|))
  }

  /** Number of windows of the sizes `lo` up to, not including, `n` over `k`
      words: the sum of `k - m + 1` for those sizes `m`. */
  function WindowsBelow(k: nat, lo: nat, n: nat): nat
    requires n <= k + 1
  {
    if n <= lo then 0 else WindowsBelow(k, lo, n - 1) + (k - (n - 1) + 1)
  }

  lemma {:induction false} GroupsLength(tokens: seq<string>, base: nat, lo: nat, hi: nat)
    requires base <= lo <= hi <= |tokens| + 1
    ensures WindowsBelow(|tokens|, base, lo) + |Groups(tokens, lo, hi)| == WindowsBelow(|tokens|, base, hi)
    decreases hi - lo
  {
    if lo < hi {
      GroupsLength(tokens, base, lo + 1, hi);
    }
  }

  /** For `k` words the expansion has one n-gram per size `n` in range and
      per start `0..k-n`: the sum of `k - n + 1` over the expanded sizes. */
  lemma NgramCount(tk: Tokenizer, tokens: seq<string>)
    ensures tk.minN <= SizeLimit(tk, |tokens|) ==>
      |WordNgrams(tk, tokens)| == WindowsBelow(|tokens|, tk.minN, SizeLimit(tk, |tokens|))
    ensures tk.minN > SizeLimit(tk, |tokens|) ==> |WordNgrams(tk, tokens)| == 0
  {
    if tk.minN <= SizeLimit(tk, |tokens|) {
      GroupsLength(tokens, tk.minN, tk.minN, SizeLimit(tk, |tokens|));
    }
  }

  /** Position, within `Groups(tokens, lo, _)`, of the window of size `n`
      starting at `i`, when sizes are counted from `base`. */
  function GroupPosition(k: nat, base: nat, lo: nat, n: nat, i: nat): int
    requires lo <= k + 1 && n <= k + 1
  {
    WindowsBelow(k, base, n) - WindowsBelow(k, base, lo) + i
  }

  lemma {:induction false} GroupsAt(tokens: seq<string>, base: nat, lo: nat, hi: nat, n: nat, i: nat)
    requires base <= lo <= n < hi <= |tokens| + 1
    requires i <= |tokens| - n
    ensures 0 <= GroupPosition(|tokens|, base, lo, n, i) < |Groups(tokens, lo, hi)|
    ensures Groups(tokens, lo, hi)[GroupPosition(|tokens|, base, lo, n, i)] == Join(tokens[i..i + n])
    decreases n - lo
  {
    var k := |tokens|;
    var w := Windows(tokens, lo);
    assert Groups(tokens, lo, hi) == w + Groups(tokens, lo + 1, hi);
    assert WindowsBelow(k, base, lo + 1) == WindowsBelow(k, base, lo) + |w|;
    if n == lo {
      assert GroupPosition(k, base, lo, n, i) == i;
    } else {
      GroupsAt(tokens, base, lo + 1, hi, n, i);
      assert GroupPosition(k, base, lo, n, i) == |w| + GroupPosition(k, base, lo + 1, n, i);
    }
  }

  lemma {:induction false} WindowsBelowMonotone(k: nat, lo: nat, a: nat, b: nat)
    requires a <= b <= k + 1
    ensures WindowsBelow(k, lo, a) <= WindowsBelow(k, lo, b)
    decreases b - a
  {
    if a < b {
      WindowsBelowMonotone(k, lo, a, b - 1);
    }
  }

  /** Position of the n-gram of size `n` starting at word `i`. */
  function NgramPosition(tk: Tokenizer, k: nat, n: nat, i: nat): nat
    requires n <= k + 1
  {
    WindowsBelow(k, tk.minN, n) + i
  }

  /** The n-gram of size `n` starting at word `i` is the words `i..i+n`
      joined with single spaces, and it sits at `NgramPosition`. */
  lemma NgramAt(tk: Tokenizer, tokens: seq<string>, n: nat, i: nat)
    requires tk.minN <= n <= tk.maxN && n <= |tokens|
    requires i <= |tokens| - n
    ensures NgramPosition(tk, |tokens|, n, i) < |WordNgrams(tk, tokens)|
    ensures WordNgrams(tk, tokens)[NgramPosition(tk, |tokens|, n, i)] == Join(tokens[i..i + n])
  {
    GroupsAt(tokens, tk.minN, tk.minN, SizeLimit(tk, |tokens|), n, i);
  }

  /** When the space is no word character, no word contains a space. */
  lemma WordsHaveNoSpace(doc: string, isWord: char -> bool)
    requires !isWord(' ')
    ensures forall w :: w in Words(doc, isWord) ==> ' ' !in w
  {
  }

  /** When the space is no word character, splitting an n-gram of size at
      least 1 on its spaces gives back the words it was joined from. */
  lemma NgramSplits(tk: Tokenizer, doc: string, isWord: char -> bool, n: nat, i: nat)
    requires !isWord(' ')
    requires 1 <= n && tk.minN <= n <= tk.maxN && n <= |Words(doc, isWord)|
    requires i <= |Words(doc, isWord)| - n
    ensures var ws := Words(doc, isWord);
      NgramPosition(tk, |ws|, n, i) < |WordNgrams(tk, ws)|
    ensures var ws := Words(doc, isWord);
      Split(WordNgrams(tk, ws)[NgramPosition(tk, |ws|, n, i)]) == ws[i..i + n]
  {
    var ws := Words(doc, isWord);
    NgramAt(tk, ws, n, i);
    WordsHaveNoSpace(doc, isWord);
    assert forall w :: w in ws[i..i + n] ==> w in ws;
    SplitJoin(ws[i..i + n]);
  }

  /** Ordering: all n-grams of one size precede those of the next size, and
      within a size the start positions increase. */
  lemma NgramOrder(tk: Tokenizer, k: nat, n: nat, i: nat, n': nat, i': nat)
    requires tk.minN <= n <= k && tk.minN <= n' <= k
    requires i <= k - n && i' <= k - n'
    requires n < n' || (n == n' && i < i')
    ensures NgramPosition(tk, k, n, i) < NgramPosition(tk, k, n', i')
  {
    if n < n' {
      WindowsBelowMonotone(k, tk.minN, n + 1, n');
    }
  }

  lemma {:induction false} GroupsCover(tokens: seq<string>, base: nat, lo: nat, hi: nat, p: nat)
    requires base <= lo <= hi <= |tokens| + 1
    requires p < |Groups(tokens, lo, hi)|
    ensures exists n: nat, i: nat ::
      (lo <= n < hi && i <= |tokens| - n && p == GroupPosition(|tokens|, base, lo, n, i))
    decreases hi - lo
  {
    var k := |tokens|;
    var w := Windows(tokens, lo);
    assert Groups(tokens, lo, hi) == w + Groups(tokens, lo + 1, hi);
    assert WindowsBelow(k, base, lo + 1) == WindowsBelow(k, base, lo) + |w|;
    if p < |w| {
      assert p == GroupPosition(k, base, lo, lo, p);
    } else {
      GroupsCover(tokens, base, lo + 1, hi, p - |w|);
      var n: nat, i: nat :| lo + 1 <= n < hi && i <= k - n &&
        p - |w| == GroupPosition(k, base, lo + 1, n, i);
      assert p == GroupPosition(k, base, lo, n, i);
    }
  }

  /** Every n-gram of the output is the one of some size in range and some
      start position: nothing else is emitted. */
  lemma NgramCover(tk: Tokenizer, tokens: seq<string>, p: nat)
    requires p < |WordNgrams(tk, tokens)|
    ensures exists n: nat, i: nat ::
      (tk.minN <= n <= tk.maxN && n <= |tokens| && i <= |tokens| - n && p == NgramPosition(tk, |tokens|, n, i))
  {
    var k := |tokens|;
    GroupsCover(tokens, tk.minN, tk.minN, SizeLimit(tk, k), p);
    var n: nat, i: nat :| tk.minN <= n < SizeLimit(tk, k) && i <= k - n &&
      p == GroupPosition(k, tk.minN, tk.minN, n, i);
    assert p == NgramPosition(tk, k, n, i);
  }

  /** A range starting at 0 first yields `k + 1` empty strings, one per start
      position of the zero-length window, then the n-grams from size 1 on. */
  lemma ZeroFloor(tk: Tokenizer, tokens: seq<string>)
    requires tk.minN == 0
    ensures WordNgrams(tk, tokens)
      == seq(|tokens| + 1, _ => "") + WordNgrams(tk.(minN := 1), tokens)
  {
    var w := Windows(tokens, 0);
    assert w == seq(|tokens| + 1, _ => "");
  }

  /** The range `1..1` yields the words themselves. */
  lemma UnigramsAreWords(tk: Tokenizer, tokens: seq<string>)
    requires tk.minN == 1 && tk.maxN == 1
    ensures WordNgrams(tk, tokens) == tokens
  {
    if |tokens| > 0 {
      forall i | 0 <= i < |tokens|
        ensures Join(tokens[i..i + 1]) == tokens[i]
      {
        assert |tokens[i..i + 1]| == 1;
      }
      assert Windows(tokens, 1) == tokens;
      assert SizeLimit(tk, |tokens|) == 2;
      assert Groups(tokens, 1, 2) == Windows(tokens, 1) + Groups(tokens, 2, 2);
    }
  }

  // ---------------------------------------------------------------------
  // Case option and whole documents
  // ---------------------------------------------------------------------

  function ConvertCase(letterCase: string, ops: TextOps, s: string): string
  {
    if letterCase == "upper" then ops.upper(s)
    else if letterCase == "lower" then ops.lower(s)
    else s
  }

  /** The case option applied to each n-gram, keeping count and order. */
  function ApplyCase(letterCase: string, ops: TextOps, ngrams: seq<string>): (r: seq<string>)
    ensures |r| == |ngrams|
    ensures forall i :: 0 <= i < |r| ==> r[i] == ConvertCase(letterCase, ops, ngrams[i])
  {
    if |ngrams| == 0 then [] else [ConvertCase(letterCase, ops, ngrams[0])] + ApplyCase(letterCase, ops, ngrams[1..])
  }

  /** A case option other than "upper" and "lower" leaves the n-grams as they are. */
  lemma OtherCaseKeeps(letterCase: string, ops: TextOps, ngrams: seq<string>)
    requires letterCase != "upper" && letterCase != "lower"
    ensures ApplyCase(letterCase, ops, ngrams) == ngrams
  {
  }

  /** The tokens of one document: its words expanded into n-grams, then
      converted to the case option. */
  function TokenizeDoc(tk: Tokenizer, ops: TextOps, doc: string): (tokens: seq<string>)
    ensures |tokens| == |WordNgrams(tk, Words(doc, ops.isWord))|
  {
    ApplyCase(tk.letterCase, ops, WordNgrams(tk, Words(doc, ops.isWord)))
  }

  /** One token list per document, in the order of the documents. */
  function Tokenize(tk: Tokenizer, ops: TextOps, docs: seq<string>): (tokenized: seq<seq<string>>)
    ensures |tokenized| == |docs|
  {
    seq(|docs|, i requires 0 <= i < |docs| => TokenizeDoc(tk, ops, docs[i]))
  }

  /** Tokenizing two collections one after the other equals tokenizing them together. */
  lemma {:induction false} TokenizeAppend(tk: Tokenizer, ops: TextOps, a: seq<string>, b: seq<string>)
    ensures Tokenize(tk, ops, a + b) == Tokenize(tk, ops, a) + Tokenize(tk, ops, b)
  {
    var whole, left, right := Tokenize(tk, ops, a + b), Tokenize(tk, ops, a), Tokenize(tk, ops, b);
    forall i | 0 <= i < |a| + |b| ensures whole[i] == (left + right)[i] {
      if i < |a| {
        assert (a + b)[i] == a[i];
      } else {
        assert (a + b)[i] == b[i - |a|];
      }
    }
  }
}
