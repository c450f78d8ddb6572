/**
  * The state of one game session: the setup choices (board shape,
  * difficulty, duration, minimum word length), the current game (board,
  * the words it holds, the words found and the score, the time left and
  * the timer handle) and the phase.  Found words are scored by length with
  * the standard Boggle table.
  */
module GameState {
  import opened Wrappers
  import opened Text

  // ---------------------------------------------------------------------
  // Scoring

  /** `scoreWord`: 1 point up to four letters, then 2, 3, 5 and 11 for
      eight or more. */
  function ScoreWord(word: string): (r: nat)
    ensures 1 <= r <= 11
    ensures |word| <= 4 <==> r == 1
    ensures |word| >= 8 <==> r == 11
  {
    var len := |word|;
    if len <= 4 then 1
    else if len == 5 then 2
    else if len == 6 then 3
    else if len == 7 then 5
    else 11
  }

  /** A longer word never scores less. */
  lemma ScoreMonotone(a: string, b: string)
    requires |a| <= |b|
    ensures ScoreWord(a) <= ScoreWord(b)
  {
  }

  /** Some element of a non-empty set. */
  ghost function Pick(s: set<string>): (w: string)
    requires s != {}
    ensures w in s
  {
    var w :| w in s; w
  }

  /** The sum of the scores of a set of words. */
  ghost function TotalScore(s: set<string>): nat
    decreases |s|
  {
    if s == {} then 0
    else
      var w := Pick(s);
      ScoreWord(w) + TotalScore(s - {w})
  }

  /** Any word of the set can be taken out first: the sum does not depend
      on the order in which a set is visited. */
  lemma {:induction false} TotalScoreRemove(s: set<string>, w: string)
    requires w in s
    ensures TotalScore(s) == ScoreWord(w) + TotalScore(s - {w})
    decreases |s|
  {
    var x := Pick(s);
    if x != w {
      TotalScoreRemove(s - {x}, w);
      TotalScoreRemove(s - {w}, x);
      assert s - {x} - {w} == s - {w} - {x};
    }
  }

  /** Adding a word not yet counted adds its score. */
  lemma TotalScoreAdd(s: set<string>, w: string)
    requires w !in s
    ensures TotalScore(s + {w}) == TotalScore(s) + ScoreWord(w)
  {
    TotalScoreRemove(s + {w}, w);
    assert s + {w} - {w} == s;
  }

  /** A subset never scores more, and a proper subset scores less. */
  lemma {:induction false} TotalScoreSubset(a: set<string>, b: set<string>)
    requires a <= b
    ensures TotalScore(a) <= TotalScore(b)
    ensures a < b ==> TotalScore(a) < TotalScore(b)
    decreases |b|
  {
    if a != b {
      assert !(b <= a);
      var w :| w in b && w !in a;
      TotalScoreRemove(b, w);
      TotalScoreSubset(a, b - {w});
    }
  }

  /** Scores in non-increasing order: the primary key of `byScoreDesc`. */
  predicate ScoreDescending(ws: seq<string>)
  {
    forall i, j :: 0 <= i < j < |ws| ==> ScoreWord(ws[i]) >= ScoreWord(ws[j])
  }

  predicate Distinct(ws: seq<string>)
  {
    forall i, j :: 0 <= i < j < |ws| ==> ws[i] != ws[j]
  }

  /** `w` placed after every word scoring at least as much. */
  function InsertByScore(w: string, ws: seq<string>): (r: seq<string>)
    ensures multiset(r) == multiset(ws) + multiset{w}
    ensures |r| == |ws| + 1
  {
    if ws == [] then [w]
    else if ScoreWord(ws[0]) >= ScoreWord(w) then
      assert ws == [ws[0]] + ws[1..];
      [ws[0]] + InsertByScore(w, ws[1..])
    else [w] + ws
  }

  lemma {:induction false} InsertByScoreSorted(w: string, ws: seq<string>)
    requires ScoreDescending(ws)
    ensures ScoreDescending(InsertByScore(w, ws))
  {
    if ws != [] && ScoreWord(ws[0]) >= ScoreWord(w) {
      InsertByScoreSorted(w, ws[1..]);
      var r := InsertByScore(w, ws);
      var t := InsertByScore(w, ws[1..]);
      forall k | 0 <= k < |t| ensures ScoreWord(ws[0]) >= ScoreWord(t[k]) {
        assert t[k] in multiset(t);
        if t[k] != w {
          assert t[k] in multiset(ws[1..]);
          var m :| 0 <= m < |ws[1..]| && ws[1..][m] == t[k];
          assert ws[m + 1] == t[k];
        }
      }
      assert r == [ws[0]] + t;
    }
  }

  lemma DistinctFromMultiset(ws: seq<string>)
    requires forall w :: multiset(ws)[w] <= 1
    ensures Distinct(ws)
  {
    forall i, j | 0 <= i < j < |ws| ensures ws[i] != ws[j] {
      RepeatCounts(ws, i, j);
    }
  }

  /** A word at two positions occurs at least twice. */
  lemma RepeatCounts(ws: seq<string>, i: nat, j: nat)
    requires i < j < |ws|
    ensures ws[i] == ws[j] ==> multiset(ws)[ws[i]] >= 2
  {
    assert ws == ws[..j] + ws[j..];
    assert ws[..j][i] == ws[i];
    assert ws[j..][0] == ws[j];
    assert multiset(ws) == multiset(ws[..j]) + multiset(ws[j..]);
  }

  /** `[...words].sort(byScoreDesc)`: every word once, highest score first. */
  method SortByScore(words: set<string>) returns (r: seq<string>)
    ensures forall w :: w in r <==> w in words
    ensures Distinct(r) && |r| == |words|
    ensures ScoreDescending(r)
  {
    r := [];
    var rest := words;
    while rest != {}
      invariant rest <= words
      invariant multiset(r) == multiset(words - rest)
      invariant ScoreDescending(r)
      decreases |rest|
    {
      var w :| w in rest;
      InsertByScoreSorted(w, r);
      assert words - (rest - {w}) == (words - rest) + {w};
      r := InsertByScore(w, r);
      rest := rest - {w};
    }
    assert words - rest == words;
    forall w ensures w in r <==> w in words {
      assert w in r <==> w in multiset(r);
    }
    DistinctFromMultiset(r);
    assert |r| == |multiset(r)| == |multiset(words)| == |words|;
  }

  // ---------------------------------------------------------------------
  // Setup tables

  /** `GRID_SIZES`: the board shape of each size key. */
  function SizeOf(key: string): (shape: Option<(nat, nat)>)
    ensures shape.Some? ==> 2 <= shape.value.1 <= shape.value.0 <= 6
  {
    if key == "6x6" then Some((6, 6))
    else if key == "5x5" then Some((5, 5))
    else if key == "4x4" then Some((4, 4))
    else if key == "3x3" then Some((3, 3))
    else if key == "3x2" then Some((3, 2))
    else if key == "2x2" then Some((2, 2))
    else None
  }

  /** `VALID_DURATIONS`, in seconds; `None` is the untimed game (`null`). */
  const ValidDurations: seq<Option<int>> := [Some(15), Some(30), Some(60), Some(120), Some(180), None]

  /** `VALID_MIN_LENGTHS` */
  const ValidMinLengths: seq<int> := [3, 4, 5, 6]

  datatype Phase = Setup | Playing | Results

  datatype SetupError = UnknownGridSize | InvalidDuration | InvalidMinWordLength

  datatype SubmitResult = Duplicate | Invalid | Accepted

  /** The module-level `state` object. */
  class Session {
    var gridSize: string
    var difficulty: string
    var duration: Option<int>
    var minWordLen: int
    var grid: Option<seq<seq<string>>>
    var rows: nat
    var cols: nat
    var allWords: Option<set<string>>
    var foundWords: set<string>
    var score: int
    var timeLeft: Option<int>
    var timerHandle: Option<nat>
    var phase: Phase

    /** The shape matches the size key, the choices come from their
        tables, a game in play has its word set, every found word is a
        word of the board and the score is
        the sum of the found words' scores. */
    ghost predicate Valid()
      reads this
    {
      && SizeOf(gridSize) == Some((rows, cols))
      && duration in ValidDurations
      && minWordLen in ValidMinLengths
      && (allWords.None? ==> foundWords == {})
      && (phase == Playing ==> allWords.Some?)
      && (allWords.Some? ==> foundWords <= allWords.value)
      && score == TotalScore(foundWords)
    }

    /** The setup choices. */
    function Choices(): (string, string, Option<int>, int, nat, nat)
      reads this
    {
      (gridSize, difficulty, duration, minWordLen, rows, cols)
    }

    /** The current game. */
    function Game(): (Option<seq<seq<string>>>, Option<set<string>>, set<string>, int, Option<int>, Option<nat>, Phase)
      reads this
    {
      (grid, allWords, foundWords, score, timeLeft, timerHandle, phase)
    }

    /** The initial state: a 3x3 board, random difficulty, 30 seconds,
        four letters, no game yet. */
    constructor ()
      ensures Valid()
      ensures Choices() == ("3x3", "random", Some(30), 4, 3, 3)
      ensures Game() == (None, None, {}, 0, Some(30), None, Setup)
    {
      gridSize, difficulty, duration, minWordLen := "3x3", "random", Some(30), 4;
      grid, rows, cols := None, 3, 3;
      allWords, foundWords, score := None, {}, 0;
      timeLeft, timerHandle, phase := Some(30), None, Setup;
    }

    /** `setGridSize`: an unknown key is refused; otherwise the key and its
        shape are stored. */
    method SetGridSize(key: string) returns (r: Result<(), SetupError>)
      requires Valid()
      modifies this
      ensures Valid() && Game() == old(Game()) && difficulty == old(difficulty)
      ensures duration == old(duration) && minWordLen == old(minWordLen)
      ensures SizeOf(key).None? ==> r == Failure(UnknownGridSize) && Choices() == old(Choices())
      ensures SizeOf(key).Some? ==> r.Success? && gridSize == key && (rows, cols) == SizeOf(key).value
    {
      var shape := SizeOf(key);
      if shape.None? {
        return Failure(UnknownGridSize);
      }
      gridSize := key;
      rows := shape.value.0;
      cols := shape.value.1;
      return Success(());
    }

    /** `setDifficulty`: any value is stored. */
    method SetDifficulty(diff: string)
      requires Valid()
      modifies this
      ensures Valid() && Game() == old(Game())
      ensures Choices() == (old(gridSize), diff, old(duration), old(minWordLen), old(rows), old(cols))
    {
      difficulty := diff;
    }

    /** `setDuration`: a value outside the table is refused. */
    method SetDuration(seconds: Option<int>) returns (r: Result<(), SetupError>)
      requires Valid()
      modifies this
      ensures Valid() && Game() == old(Game())
      ensures seconds !in ValidDurations ==> r == Failure(InvalidDuration) && Choices() == old(Choices())
      ensures seconds in ValidDurations ==>
                r.Success? && Choices() == (old(gridSize), old(difficulty), seconds, old(minWordLen), old(rows), old(cols))
    {
      if seconds !in ValidDurations {
        return Failure(InvalidDuration);
      }
      duration := seconds;
      return Success(());
    }

    /** `setMinWordLen`: a value outside the table is refused. */
    method SetMinWordLen(len: int) returns (r: Result<(), SetupError>)
      requires Valid()
      modifies this
      ensures Valid() && Game() == old(Game())
      ensures len !in ValidMinLengths ==> r == Failure(InvalidMinWordLength) && Choices() == old(Choices())
      ensures len in ValidMinLengths ==>
                r.Success? && Choices() == (old(gridSize), old(difficulty), old(duration), len, old(rows), old(cols))
    {
      if len !in ValidMinLengths {
        return Failure(InvalidMinWordLength);
      }
      minWordLen := len;
      return Success(());
    }

    /** `startGame`: a new board and word set, nothing found, no score, the
        full duration left, playing.  The timer handle is left as it was. */
    method StartGame(newGrid: seq<seq<string>>, words: set<string>)
      requires Valid()
      modifies this
      ensures Valid() && Choices() == old(Choices())
      ensures Game() == (Some(newGrid), Some(words), {}, 0, old(duration), old(timerHandle), Playing)
    {
      grid := Some(newGrid);
      allWords := Some(words);
      foundWords := {};
      score := 0;
      timeLeft := duration;
      phase := Playing;
    }

    /** `submitWord`, during a game: a word already found (in any case) is a
        duplicate and a word not on the board is invalid, and neither
        changes anything; otherwise the lower-cased word is found and its
        score added. */
    method SubmitWord(word: string) returns (r: SubmitResult)
      requires Valid() && allWords.Some?
      modifies this
      ensures Valid() && Choices() == old(Choices())
      ensures grid == old(grid) && allWords == old(allWords) && timeLeft == old(timeLeft)
      ensures timerHandle == old(timerHandle) && phase == old(phase)
      ensures Lower(word) in old(foundWords) ==>
                r == Duplicate && foundWords == old(foundWords) && score == old(score)
      ensures Lower(word) !in old(foundWords) && Lower(word) !in allWords.value ==>
                r == Invalid && foundWords == old(foundWords) && score == old(score)
      ensures Lower(word) !in old(foundWords) && Lower(word) in allWords.value ==>
                r == Accepted && foundWords == old(foundWords) + {Lower(word)} &&
                score == old(score) + ScoreWord(Lower(word))
    {
      var lower := Lower(word);
      if lower in foundWords {
        return Duplicate;
      }
      if lower !in allWords.value {
        return Invalid;
      }
      TotalScoreAdd(foundWords, lower);
      foundWords := foundWords + {lower};
      score := score + ScoreWord(lower);
      return Accepted;
    }

    /** `endGame`: the results phase, with the timer stopped. */
    method EndGame()
      requires Valid()
      modifies this
      ensures Valid() && Choices() == old(Choices())
      ensures Game() == (old(grid), old(allWords), old(foundWords), old(score), old(timeLeft), None, Results)
    {
      phase := Results;
      if timerHandle.Some? {
        timerHandle := None;
      }
    }

    /** `getMissedWords`: the words of the board not found, highest score
        first; none before the first game. */
    method GetMissedWords() returns (r: seq<string>)
      ensures allWords.None? ==> r == []
      ensures allWords.Some? ==> forall w :: w in r <==> w in allWords.value && w !in foundWords
      ensures Distinct(r) && ScoreDescending(r)
    {
      if allWords.None? {
        return [];
      }
      r := SortByScore(allWords.value - foundWords);
    }

    /** `getFoundWordsSorted`: the found words, highest score first. */
    method GetFoundWordsSorted() returns (r: seq<string>)
      ensures forall w :: w in r <==> w in foundWords
      ensures Distinct(r) && ScoreDescending(r)
    {
      r := SortByScore(foundWords);
    }

    /** `getMaxScore`: the sum of the scores of every word of the board;
        zero before the first game. */
    method GetMaxScore() returns (total: int)
      ensures allWords.None? ==> total == 0
      ensures allWords.Some? ==> total == TotalScore(allWords.value)
    {
      if allWords.None? {
        return 0;
      }
      total := 0;
      var rest := allWords.value;
      while rest != {}
        invariant total + TotalScore(rest) == TotalScore(allWords.value)
        decreases |rest|
      {
        var w :| w in rest;
        TotalScoreRemove(rest, w);
        total := total + ScoreWord(w);
        rest := rest - {w};
      }
    }

    /** The score never exceeds the maximum, and reaches it exactly when
        every word of the board has been found. */
    lemma ScoreAtMostMax()
      requires Valid() && allWords.Some?
      ensures score <= TotalScore(allWords.value)
      ensures score == TotalScore(allWords.value) <==> foundWords == allWords.value
    {
      TotalScoreSubset(foundWords, allWords.value);
    }
  }
}
