/// The word-frequency counter of assessment-3.c: the input is read one
/// character at a time into a word buffer, each finished word is
/// lower-cased and counted in a table of at most 1000 entries updated in
/// place, and the most frequent word (the strcmp-smallest among equals) is
/// reported.
module WordCount {
  import opened CType
  import opened CStrings

  /// MAX_WORDS: the capacity of the table.
  const MaxWords: nat := 1000

  /// MAX_LEN: the size of the word buffer, terminator included.
  const MaxLen: nat := 101

  /// A word keeps at most this many characters.
  const WordLimit: nat := MaxLen - 1

  /// is_word_char.
  predicate IsWordChar(c: char) {
    IsAlnum(c)
  }

  /// to_lower applied to every character of s.
  function Lower(s: string): string {
    seq(|s|, k requires 0 <= k < |s| => ToLower(s[k]))
  }

  /// The first n characters of s, or s when it is shorter.
  function Take(s: string, n: nat): string {
    if |s| <= n then s else s[..n]
  }

  /// What a run of word characters is counted as: its first 100
  /// characters, lower-cased.
  function Normalize(run: string): string {
    Lower(Take(run, WordLimit))
  }

  function NormalizeAll(runs: seq<string>): seq<string> {
    seq(|runs|, k requires 0 <= k < |runs| => Normalize(runs[k]))
  }

  // ---------------------------------------------------------------------
  // Maximal runs of word characters
  // ---------------------------------------------------------------------

  /// The run of word characters s ends with (empty when s ends with any
  /// other character).
  function TrailingRun(s: string): string {
    if s == [] || !IsWordChar(s[|s| - 1]) then []
    else TrailingRun(s[..|s| - 1]) + [s[|s| - 1]]
  }

  /// The runs of s that some other character has closed.
  function ClosedRuns(s: string): seq<string> {
    if s == [] then []
    else
      var init := s[..|s| - 1];
      if IsWordChar(s[|s| - 1]) || TrailingRun(init) == [] then ClosedRuns(init)
      else ClosedRuns(init) + [TrailingRun(init)]
  }

  /// The maximal runs of word characters of s, in order, the one still
  /// open at the end included.
  function Runs(s: string): seq<string> {
    ClosedRuns(s) + (if TrailingRun(s) == [] then [] else [TrailingRun(s)])
  }

  /// The word characters of s, in order.
  function WordChars(s: string): string {
    if s == [] then []
    else WordChars(s[..|s| - 1]) + (if IsWordChar(s[|s| - 1]) then [s[|s| - 1]] else [])
  }

  function Concat(runs: seq<string>): string {
    if runs == [] then [] else Concat(runs[..|runs| - 1]) + runs[|runs| - 1]
  }

  predicate AllWordChars(s: string) {
    forall k :: 0 <= k < |s| ==> IsWordChar(s[k])
  }

  lemma {:induction false} TrailingRunIsSuffix(s: string)
    ensures |TrailingRun(s)| <= |s| && TrailingRun(s) == s[|s| - |TrailingRun(s)|..]
    ensures AllWordChars(TrailingRun(s))
  {
    if s != [] && IsWordChar(s[|s| - 1]) {
      TrailingRunIsSuffix(s[..|s| - 1]);
    }
  }

  lemma ConcatSnoc(runs: seq<string>, r: string)
    ensures Concat(runs + [r]) == Concat(runs) + r
  {
    assert (runs + [r])[..|runs|] == runs;
  }

  /// One more character: a word character extends the run still open (or
  /// opens one); any other character closes it and adds no run.
  lemma RunsSnoc(s: string)
    requires s != []
    ensures var init, c := s[..|s| - 1], s[|s| - 1];
            IsWordChar(c) ==> Runs(s) == ClosedRuns(init) + [TrailingRun(init) + [c]]
    ensures var init, c := s[..|s| - 1], s[|s| - 1];
            !IsWordChar(c) ==> Runs(s) == Runs(init)
  {
    var init := s[..|s| - 1];
    if !IsWordChar(s[|s| - 1]) {
      assert TrailingRun(s) == [];
      assert Runs(s) == ClosedRuns(s);
      if TrailingRun(init) == [] {
        assert ClosedRuns(s) == ClosedRuns(init);
        assert Runs(init) == ClosedRuns(init) + [];
      }
    }
  }

  /// The runs are non-empty strings of word characters.
  lemma {:induction false} RunsAreWordRuns(s: string)
    ensures forall r :: r in Runs(s) ==> r != [] && AllWordChars(r)
  {
    if s != [] {
      var init := s[..|s| - 1];
      RunsAreWordRuns(init);
      RunsSnoc(s);
      if IsWordChar(s[|s| - 1]) {
        TrailingRunIsSuffix(s);
        assert TrailingRun(s) == TrailingRun(init) + [s[|s| - 1]];
        assert forall r :: r in ClosedRuns(init) ==> r in Runs(init);
      }
    }
  }

  /// Together the runs hold exactly the word characters of s, in order:
  /// every other character only separates runs.
  lemma {:induction false} RunsConcat(s: string)
    ensures Concat(Runs(s)) == WordChars(s)
  {
    if s != [] {
      var init, c := s[..|s| - 1], s[|s| - 1];
      RunsConcat(init);
      RunsSnoc(s);
      if IsWordChar(c) {
        assert WordChars(s) == WordChars(init) + [c];
        ConcatSnoc(ClosedRuns(init), TrailingRun(init) + [c]);
        if TrailingRun(init) == [] {
          assert ClosedRuns(init) + [] == ClosedRuns(init);
          assert Runs(init) == ClosedRuns(init);
          assert TrailingRun(init) + [c] == [c];
        } else {
          ConcatSnoc(ClosedRuns(init), TrailingRun(init));
        }
      } else {
        assert WordChars(s) == WordChars(init) + [];
      }
    }
  }

  // ---------------------------------------------------------------------
  // The read loop
  // ---------------------------------------------------------------------

  /// The state of the read loop: the words finished so far and the
  /// characters in the buffer.
  datatype Reader = Reader(done: seq<string>, buf: string)

  /// One character of input: a word character is stored while the buffer
  /// has room and dropped otherwise; any other character finishes the word
  /// in the buffer, if there is one.
  function Feed(rd: Reader, c: char): Reader {
    if IsWordChar(c) then
      if |rd.buf| < WordLimit then rd.(buf := rd.buf + [c]) else rd
    else if |rd.buf| > 0 then Reader(rd.done + [Lower(rd.buf)], [])
    else rd
  }

  /// The state after reading s from the start.
  function FeedAll(s: string): Reader {
    if s == [] then Reader([], [])
    else Feed(FeedAll(s[..|s| - 1]), s[|s| - 1])
  }

  lemma FeedAllSnoc(s: string, i: nat)
    requires i < |s|
    ensures FeedAll(s[..i + 1]) == Feed(FeedAll(s[..i]), s[i])
  {
    assert s[..i + 1][..i] == s[..i];
  }

  /// End of input: a word still in the buffer is finished too.
  function Close(rd: Reader): seq<string> {
    if |rd.buf| > 0 then rd.done + [Lower(rd.buf)] else rd.done
  }

  /// The words the program counts, in the order it counts them.
  function Words(s: string): seq<string> {
    Close(FeedAll(s))
  }

  lemma TakeSnoc(x: string, c: char, n: nat)
    ensures Take(x + [c], n) == if |Take(x, n)| < n then Take(x, n) + [c] else Take(x, n)
  {
    if |x| > n {
      assert (x + [c])[..n] == x[..n];
    }
  }

  lemma NormalizeAllSnoc(runs: seq<string>, r: string)
    ensures NormalizeAll(runs + [r]) == NormalizeAll(runs) + [Normalize(r)]
  {
  }

  /// After reading s the finished words are the closed runs of s,
  /// normalised, and the buffer holds the first 100 characters of the run
  /// still open.
  lemma {:induction false} FeedAllState(s: string)
    ensures FeedAll(s).done == NormalizeAll(ClosedRuns(s))
    ensures FeedAll(s).buf == Take(TrailingRun(s), WordLimit)
  {
    if s != [] {
      var init := s[..|s| - 1];
      var c := s[|s| - 1];
      FeedAllState(init);
      if IsWordChar(c) {
        TakeSnoc(TrailingRun(init), c, WordLimit);
      } else if TrailingRun(init) != [] {
        NormalizeAllSnoc(ClosedRuns(init), TrailingRun(init));
      }
    }
  }

  /// The counted words are the maximal runs of word characters, each cut
  /// to its first 100 characters and lower-cased; a run open at the end
  /// of input counts as well.
  lemma WordsAreRuns(s: string)
    ensures Words(s) == NormalizeAll(Runs(s))
  {
    FeedAllState(s);
    if TrailingRun(s) != [] {
      NormalizeAllSnoc(ClosedRuns(s), TrailingRun(s));
    }
  }

  /// Every counted word is non-empty, at most 100 characters long, and
  /// made of lower-case letters and digits.
  lemma WordsShape(s: string)
    ensures forall w :: w in Words(s) ==> 0 < |w| <= WordLimit && AllWordChars(w) &&
                                          forall k :: 0 <= k < |w| ==> !IsUpper(w[k])
  {
    WordsAreRuns(s);
    RunsAreWordRuns(s);
    forall w | w in Words(s)
      ensures 0 < |w| <= WordLimit && AllWordChars(w) && forall k :: 0 <= k < |w| ==> !IsUpper(w[k])
    {
      var j :| 0 <= j < |Runs(s)| && w == Normalize(Runs(s)[j]);
      assert Runs(s)[j] in Runs(s);
    }
  }

  // ---------------------------------------------------------------------
  // The table of counts
  // ---------------------------------------------------------------------

  /// WordEntry: a word and how often it was seen.
  datatype WordEntry = WordEntry(word: string, count: int)

  /// Some entry of t holds w.
  predicate Holds(t: seq<WordEntry>, w: string) {
    exists i :: 0 <= i < |t| && t[i].word == w
  }

  /// find_word: the index of the first entry holding w, or -1.
  function IndexOf(t: seq<WordEntry>, w: string): (i: int)
    ensures -1 <= i < |t|
    ensures i >= 0 ==> t[i].word == w && forall k :: 0 <= k < i ==> t[k].word != w
    ensures i == -1 <==> !Holds(t, w)
  {
    if t == [] then -1
    else if t[0].word == w then 0
    else
      var j := IndexOf(t[1..], w);
      assert forall k :: 1 <= k < |t| ==> t[k] == t[1..][k - 1];
      if j == -1 then -1 else j + 1
  }

  /// Counting one word: a word already in the table has its count raised
  /// by one; a new word gets an entry with count 1 while the table has
  /// room, and is dropped once it holds 1000 entries.
  function Count(t: seq<WordEntry>, w: string): seq<WordEntry> {
    var i := IndexOf(t, w);
    if i >= 0 then t[i := t[i].(count := t[i].count + 1)]
    else if |t| < MaxWords then t + [WordEntry(w, 1)]
    else t
  }

  /// The table after counting ws, in order, from an empty one.
  function Tally(ws: seq<string>): seq<WordEntry> {
    if ws == [] then [] else Count(Tally(ws[..|ws| - 1]), ws[|ws| - 1])
  }

  /// How often w occurs in ws.
  function Occurrences(ws: seq<string>, w: string): nat {
    if ws == [] then 0
    else Occurrences(ws[..|ws| - 1], w) + (if ws[|ws| - 1] == w then 1 else 0)
  }

  lemma {:induction false} OccurrencesIn(ws: seq<string>, w: string)
    ensures Occurrences(ws, w) > 0 <==> w in ws
  {
    if ws != [] {
      var init := ws[..|ws| - 1];
      OccurrencesIn(init, w);
      assert ws == init + [ws[|ws| - 1]];
    }
  }

  /// No word has two entries.
  predicate Distinct(t: seq<WordEntry>) {
    forall i, j :: 0 <= i < j < |t| ==> t[i].word != t[j].word
  }

  /// What the table of ws promises: at most 1000 entries, one per word,
  /// each counting every occurrence of its word; and every word of ws has
  /// an entry unless the table filled up.
  predicate TableOf(t: seq<WordEntry>, ws: seq<string>) {
    && |t| <= MaxWords
    && Distinct(t)
    && (forall i :: 0 <= i < |t| ==> t[i].count == Occurrences(ws, t[i].word))
    && (|t| < MaxWords ==> forall k :: 0 <= k < |ws| ==> Holds(t, ws[k]))
  }

  lemma OccurrencesSnoc(ws: seq<string>, w: string, x: string)
    ensures Occurrences(ws + [w], x) == Occurrences(ws, x) + (if x == w then 1 else 0)
  {
    assert (ws + [w])[..|ws|] == ws;
  }

  /// A word already in the table: its entry counts one more.
  lemma CountSeen(t: seq<WordEntry>, ws: seq<string>, w: string)
    requires TableOf(t, ws) && IndexOf(t, w) >= 0
    ensures TableOf(Count(t, w), ws + [w])
  {
    var i := IndexOf(t, w);
    var t', ws' := Count(t, w), ws + [w];
    assert forall k :: 0 <= k < |t| ==> t'[k].word == t[k].word;
    forall k | 0 <= k < |t'|
      ensures t'[k].count == Occurrences(ws', t'[k].word)
    {
      OccurrencesSnoc(ws, w, t[k].word);
    }
    forall k | 0 <= k < |ws'| && |t'| < MaxWords
      ensures Holds(t', ws'[k])
    {
      if k < |ws| {
        var j :| 0 <= j < |t| && t[j].word == ws[k];
        assert t'[j].word == ws'[k];
      } else {
        assert t'[i].word == ws'[k];
      }
    }
  }

  /// A new word while the table has room: it gets an entry of its own.
  lemma CountNew(t: seq<WordEntry>, ws: seq<string>, w: string)
    requires TableOf(t, ws) && IndexOf(t, w) == -1 && |t| < MaxWords
    ensures TableOf(Count(t, w), ws + [w])
  {
    var t', ws' := Count(t, w), ws + [w];
    assert t' == t + [WordEntry(w, 1)];
    assert forall k :: 0 <= k < |ws| ==> Holds(t, ws[k]);
    OccurrencesIn(ws, w);
    forall k | 0 <= k < |t'|
      ensures t'[k].count == Occurrences(ws', t'[k].word)
    {
      OccurrencesSnoc(ws, w, t'[k].word);
    }
    forall k | 0 <= k < |ws'|
      ensures Holds(t', ws'[k])
    {
      if k < |ws| {
        var j :| 0 <= j < |t| && t[j].word == ws[k];
        assert t'[j].word == ws'[k];
      } else {
        assert t'[|t|].word == ws'[k];
      }
    }
  }

  /// A new word once the table is full: nothing changes, and the word is
  /// in no entry.
  lemma CountFull(t: seq<WordEntry>, ws: seq<string>, w: string)
    requires TableOf(t, ws) && IndexOf(t, w) == -1 && |t| == MaxWords
    ensures TableOf(Count(t, w), ws + [w])
  {
    forall k | 0 <= k < |t|
      ensures t[k].count == Occurrences(ws + [w], t[k].word)
    {
      OccurrencesSnoc(ws, w, t[k].word);
    }
  }

  /// Counting one more word keeps TableOf.
  lemma CountKeeps(t: seq<WordEntry>, ws: seq<string>, w: string)
    requires TableOf(t, ws)
    ensures TableOf(Count(t, w), ws + [w])
  {
    if IndexOf(t, w) >= 0 {
      CountSeen(t, ws, w);
    } else if |t| < MaxWords {
      CountNew(t, ws, w);
    } else {
      CountFull(t, ws, w);
    }
  }

  /// The table built from ws keeps TableOf.
  lemma {:induction false} TallyIsTable(ws: seq<string>)
    ensures TableOf(Tally(ws), ws)
  {
    if ws != [] {
      var init := ws[..|ws| - 1];
      TallyIsTable(init);
      CountKeeps(Tally(init), init, ws[|ws| - 1]);
      assert init + [ws[|ws| - 1]] == ws;
    }
  }

  /// Every entry of the table is a word of ws, seen at least once.
  lemma TallyEntries(ws: seq<string>)
    ensures forall i :: 0 <= i < |Tally(ws)| ==> Tally(ws)[i].count >= 1 && Tally(ws)[i].word in ws
  {
    TallyIsTable(ws);
    forall i | 0 <= i < |Tally(ws)|
      ensures Tally(ws)[i].count >= 1 && Tally(ws)[i].word in ws
    {
      OccurrencesIn(ws, Tally(ws)[i].word);
    }
  }

  /// The table is empty exactly when there was no word.
  lemma TallyEmpty(ws: seq<string>)
    ensures Tally(ws) == [] <==> ws == []
  {
    TallyIsTable(ws);
    if ws != [] {
      assert Holds(Tally(ws), ws[0]) || |Tally(ws)| == MaxWords;
    }
  }

  /// The sum of the counts.
  function Total(t: seq<WordEntry>): int {
    if t == [] then 0 else Total(t[..|t| - 1]) + t[|t| - 1].count
  }

  lemma {:induction false} TotalBump(t: seq<WordEntry>, i: nat)
    requires i < |t|
    ensures Total(t[i := t[i].(count := t[i].count + 1)]) == Total(t) + 1
  {
    var t' := t[i := t[i].(count := t[i].count + 1)];
    if i < |t| - 1 {
      TotalBump(t[..|t| - 1], i);
      assert t'[..|t| - 1] == t[..|t| - 1][i := t[i].(count := t[i].count + 1)];
    } else {
      assert t'[..|t| - 1] == t[..|t| - 1];
    }
  }

  lemma TotalSnoc(t: seq<WordEntry>, e: WordEntry)
    ensures Total(t + [e]) == Total(t) + e.count
  {
    assert (t + [e])[..|t|] == t;
  }

  lemma CountTotal(t: seq<WordEntry>, w: string)
    ensures |Count(t, w)| >= |t|
    ensures Total(Count(t, w)) <= Total(t) + 1
    ensures |Count(t, w)| < MaxWords ==> Total(Count(t, w)) == Total(t) + 1
  {
    var i := IndexOf(t, w);
    if i >= 0 {
      TotalBump(t, i);
    } else if |t| < MaxWords {
      TotalSnoc(t, WordEntry(w, 1));
    }
  }

  lemma TallySnoc(ws: seq<string>, w: string)
    ensures Tally(ws + [w]) == Count(Tally(ws), w)
  {
    assert (ws + [w])[..|ws|] == ws;
  }

  /// Every word is counted once, except words that found the table full:
  /// the counts add up to at most the number of words, and to exactly that
  /// number while the table never filled up.
  lemma {:induction false} TallyTotal(ws: seq<string>)
    ensures Total(Tally(ws)) <= |ws|
    ensures |Tally(ws)| < MaxWords ==> Total(Tally(ws)) == |ws|
  {
    if ws != [] {
      var init, w := ws[..|ws| - 1], ws[|ws| - 1];
      TallyTotal(init);
      assert Tally(ws) == Count(Tally(init), w);
      CountTotal(Tally(init), w);
    }
  }

  // ---------------------------------------------------------------------
  // strcmp order and the choice of the reported word
  // ---------------------------------------------------------------------

  /// strcmp(a, b) < 0: at the first position where the strings differ a
  /// has the smaller character, or a is a proper prefix of b. (The words
  /// compared are ASCII, where char order and unsigned byte order agree.)
  predicate StrLess(a: string, b: string) {
    if a == [] then b != []
    else if b == [] then false
    else if a[0] != b[0] then a[0] < b[0]
    else StrLess(a[1..], b[1..])
  }

  lemma {:induction false} StrLessIrreflexive(a: string)
    ensures !StrLess(a, a)
  {
    if a != [] {
      StrLessIrreflexive(a[1..]);
    }
  }

  lemma {:induction false} StrLessTransitive(a: string, b: string, c: string)
    requires StrLess(a, b) && StrLess(b, c)
    ensures StrLess(a, c)
  {
    if a != [] && a[0] == b[0] && b[0] == c[0] {
      StrLessTransitive(a[1..], b[1..], c[1..]);
    }
  }

  /// Two different strings are always ordered one way or the other.
  lemma {:induction false} StrLessTotal(a: string, b: string)
    requires a != b
    ensures StrLess(a, b) || StrLess(b, a)
  {
    if a != [] && b != [] && a[0] == b[0] {
      assert a == [a[0]] + a[1..] && b == [b[0]] + b[1..];
      StrLessTotal(a[1..], b[1..]);
    }
  }

  /// The pair (word, count) is what gets reported for table t: no entry
  /// counts more, and every entry with the same count holds word or a
  /// word that strcmp puts after it.
  predicate IsBest(t: seq<WordEntry>, word: string, count: int) {
    && (forall k :: 0 <= k < |t| ==> t[k].count <= count)
    && (forall k :: 0 <= k < |t| && t[k].count == count ==> t[k].word == word || StrLess(word, t[k].word))
  }

  /// At most one entry of a table is the best: the reported word does not
  /// depend on the order of the entries.
  lemma BestIsUnique(t: seq<WordEntry>, i: nat, j: nat)
    requires i < |t| && j < |t|
    requires IsBest(t, t[i].word, t[i].count) && IsBest(t, t[j].word, t[j].count)
    ensures t[i].word == t[j].word && t[i].count == t[j].count
  {
    if t[i].word != t[j].word {
      StrLessIrreflexive(t[i].word);
      if StrLess(t[i].word, t[j].word) && StrLess(t[j].word, t[i].word) {
        StrLessTransitive(t[i].word, t[j].word, t[i].word);
      }
    }
  }

  /// The selection loop: a larger count, or an equal count with a word
  /// strcmp puts first, replaces the current choice, which starts as the
  /// empty word with count 0.
  method SelectMostFrequent(words: array<WordEntry>, total: nat) returns (result: string, maxCount: int)
    requires total <= words.Length
    ensures maxCount >= 0
    ensures maxCount == 0 ==> result == []
    ensures maxCount > 0 ==> exists k :: 0 <= k < total && words[k] == WordEntry(result, maxCount)
    ensures IsBest(words[..total], result, maxCount)
  {
    result, maxCount := [], 0;
    var i := 0;
    while i < total
      invariant 0 <= i <= total
      invariant maxCount >= 0
      invariant maxCount == 0 ==> result == []
      invariant maxCount > 0 ==> exists k :: 0 <= k < i && words[k] == WordEntry(result, maxCount)
      invariant IsBest(words[..i], result, maxCount)
    {
      var e := words[i];
      assert words[..i + 1] == words[..i] + [e];
      if e.count > maxCount || (e.count == maxCount && StrLess(e.word, result)) {
        forall k | 0 <= k < i && words[k].count == e.count
          ensures words[k].word == e.word || StrLess(e.word, words[k].word)
        {
          if words[k].word != result {
            StrLessTransitive(e.word, result, words[k].word);
          }
        }
        result, maxCount := e.word, e.count;
      } else if e.count == maxCount && e.word != result {
        StrLessTotal(e.word, result);
      }
      i := i + 1;
    }
  }

  const NoWordsLine: string := "No valid words found.\n"

  /// "%s %d\n" of a word and its count.
  function ResultLine(word: string, count: int): string {
    word + " " + IntToString(count) + "\n"
  }

  /// What is written: the word and its count when the count is positive,
  /// the fixed message otherwise.
  function Report(result: string, maxCount: int): string {
    if maxCount > 0 then ResultLine(result, maxCount) else NoWordsLine
  }

  /// The result line reads back: the word up to the blank, then the count
  /// atoi gives back, then the newline.
  lemma ResultLineReadsBack(word: string, count: int)
    ensures var out := ResultLine(word, count);
            && out[..|word|] == word && out[|word|] == ' ' && out[|out| - 1] == '\n'
            && Atoi(out[|word| + 1..|out| - 1]) == count
  {
    var out := ResultLine(word, count);
    assert out[|word| + 1..|out| - 1] == IntToString(count);
    AtoiIntToString(count);
  }

  /// A result line for a counted word never reads as the message for no
  /// words: the word starts with a lower-case letter or a digit.
  lemma ResultLineIsNotMessage(word: string, count: int)
    requires word != [] && !IsUpper(word[0])
    ensures ResultLine(word, count) != NoWordsLine
  {
    assert ResultLine(word, count)[0] == word[0];
    assert NoWordsLine[0] == 'N';
  }

  // ---------------------------------------------------------------------
  // The program, on arrays
  // ---------------------------------------------------------------------

  /// to_lower on the first len characters of the buffer.
  method ToLowerInPlace(buffer: array<char>, len: nat)
    requires len <= buffer.Length
    modifies buffer
    ensures buffer[..len] == Lower(old(buffer[..len]))
    ensures buffer[len..] == old(buffer[len..])
  {
    var i := 0;
    while i < len
      invariant 0 <= i <= len
      invariant buffer[..i] == Lower(old(buffer[..i]))
      invariant buffer[i..] == old(buffer[i..])
    {
      assert buffer[i] == old(buffer[i..])[0];
      buffer[i] := ToLower(buffer[i]);
      assert buffer[i + 1..] == old(buffer[i + 1..]) by {
        assert forall k :: i + 1 <= k < buffer.Length ==> buffer[k] == old(buffer[k]);
      }
      i := i + 1;
    }
  }

  /// find_word over the first total entries.
  method FindWord(words: array<WordEntry>, total: nat, target: string) returns (index: int)
    requires total <= words.Length
    ensures index == IndexOf(words[..total], target)
  {
    var i := 0;
    while i < total
      invariant 0 <= i <= total
      invariant forall k :: 0 <= k < i ==> words[k].word != target
    {
      if words[i].word == target {
        return i;
      }
      i := i + 1;
    }
    return -1;
  }

  /// Counting one finished word in the table, in place.
  method AddWord(words: array<WordEntry>, total: nat, w: string) returns (newTotal: nat)
    requires total <= words.Length == MaxWords
    modifies words
    ensures newTotal <= MaxWords
    ensures words[..newTotal] == Count(old(words[..total]), w)
  {
    var index := FindWord(words, total, w);
    if index != -1 {
      words[index] := words[index].(count := words[index].count + 1);
      newTotal := total;
    } else if total < MaxWords {
      words[total] := WordEntry(w, 1);
      newTotal := total + 1;
    } else {
      newTotal := total;
    }
  }

  /// A finished word: the buffer is lower-cased in place and the word it
  /// holds is counted.
  method FinishWord(words: array<WordEntry>, total: nat, buffer: array<char>, len: nat) returns (newTotal: nat)
    requires total <= words.Length == MaxWords
    requires len <= buffer.Length
    modifies words, buffer
    ensures newTotal <= MaxWords
    ensures words[..newTotal] == Count(old(words[..total]), Lower(old(buffer[..len])))
    ensures buffer[..len] == Lower(old(buffer[..len])) && buffer[len..] == old(buffer[len..])
  {
    ToLowerInPlace(buffer, len);
    newTotal := AddWord(words, total, buffer[..len]);
  }

  /// The read loop and the final word: the table holds the counts of the
  /// words of the input.
  method CountWords(input: string) returns (words: array<WordEntry>, total: nat)
    ensures words.Length == MaxWords && total <= MaxWords
    ensures words[..total] == Tally(Words(input))
  {
    words := new WordEntry[MaxWords](_ => WordEntry([], 0));
    total := 0;
    var buffer := new char[MaxLen](_ => ' ');
    var len := 0;
    var i := 0;
    while i < |input|
      invariant 0 <= i <= |input|
      invariant 0 <= len <= WordLimit
      invariant buffer[..len] == FeedAll(input[..i]).buf
      invariant total <= MaxWords && words[..total] == Tally(FeedAll(input[..i]).done)
    {
      var ch := input[i];
      ghost var rd := FeedAll(input[..i]);
      FeedAllSnoc(input, i);
      if IsWordChar(ch) {
        if len < WordLimit {
          buffer[len] := ch;
          assert buffer[..len + 1] == rd.buf + [ch];
          len := len + 1;
        }
      } else if len > 0 {
        total := FinishWord(words, total, buffer, len);
        TallySnoc(rd.done, Lower(rd.buf));
        len := 0;
      }
      i := i + 1;
    }
    assert input[..i] == input;
    ghost var rd := FeedAll(input);
    if len > 0 {
      total := FinishWord(words, total, buffer, len);
      TallySnoc(rd.done, Lower(rd.buf));
    }
  }

  /// The whole program on the text of input.txt: the text of output.txt.
  /// With no word it is the fixed message; otherwise it names the most
  /// frequent entry of the table, the strcmp-first among equals.
  method WordFrequency(input: string) returns (output: string)
    ensures Words(input) == [] <==> output == NoWordsLine
    ensures Words(input) != [] ==>
              var t := Tally(Words(input));
              exists k :: 0 <= k < |t| && output == ResultLine(t[k].word, t[k].count) &&
                          IsBest(t, t[k].word, t[k].count)
  {
    var words, total := CountWords(input);
    var result, maxCount := SelectMostFrequent(words, total);
    output := Report(result, maxCount);
    ghost var ws := Words(input);
    ghost var t := Tally(ws);
    TallyEmpty(ws);
    TallyEntries(ws);
    WordsShape(input);
    if ws != [] {
      assert t[0].count >= 1;
      var k :| 0 <= k < total && words[k] == WordEntry(result, maxCount);
      assert t[k].word in ws;
      ResultLineIsNotMessage(result, maxCount);
    }
  }
}
