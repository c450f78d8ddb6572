/**
  * The input rules of the page controller: a path of tapped cells kept in
  * step with the tiles it appended to the input box, deletion of a whole
  * tapped tile at a time, the tap record dropped on keyboard edits and on
  * submit, and a bash-style cursor over the submitted words.  The input
  * box is the string field `value`; the game is the shared `Session`.
  */
module App {
  import opened Wrappers
  import opened Text
  import opened Board
  import opened GameState
  import Grid

  /** Distinct cells, each adjacent (by `isAdjacent`) to the one before. */
  predicate TapChain(p: seq<nat>, cols: nat)
  {
    && (forall k, l :: 0 <= k < l < |p| ==> p[k] != p[l])
    && (forall k :: 0 <= k < |p| - 1 ==> Grid.IsAdjacent(p[k], p[k + 1], cols))
  }

  /** The two guards of `handleCellTap`: the cell is not in the path yet,
      and the path is empty or ends next to it. */
  predicate TapAccepted(p: seq<nat>, idx: nat, cols: nat): (b: bool)
    ensures b ==> forall k :: 0 <= k < |p| ==> p[k] != idx
    ensures b && p != [] ==> cols > 0 && idx <= p[|p| - 1] + cols + 1 && p[|p| - 1] <= idx + cols + 1
  {
    idx !in p && (p == [] || Grid.IsAdjacent(p[|p| - 1], idx, cols))
  }

  /** The guards admit exactly the taps that keep the path a chain. */
  lemma TapExtends(p: seq<nat>, idx: nat, cols: nat)
    requires TapChain(p, cols)
    ensures TapChain(p + [idx], cols) <==> TapAccepted(p, idx, cols)
  {
    var q := p + [idx];
    if TapChain(q, cols) {
      forall k | 0 <= k < |p|
        ensures p[k] != idx
      {
        assert q[k] == p[k] && q[|p|] == idx;
      }
      if p != [] {
        assert q[|p| - 1] == p[|p| - 1] && q[|p|] == idx;
        assert Grid.IsAdjacent(q[|p| - 1], q[|p|], cols);
      }
    }
    if TapAccepted(p, idx, cols) {
      forall k, l | 0 <= k < l < |q|
        ensures q[k] != q[l]
      {
        if l == |p| {
          assert q[k] == p[k];
        }
      }
      forall k | 0 <= k < |q| - 1
        ensures Grid.IsAdjacent(q[k], q[k + 1], cols)
      {
        if k + 1 < |p| {
          assert q[k] == p[k] && q[k + 1] == p[k + 1];
        }
      }
    }
  }

  /** A chain of in-range cells is exactly a trail of the board's
      adjacency lists: the tap rule and the solver's moves agree. */
  lemma TapChainIsTrail(p: seq<nat>, rows: nat, cols: nat)
    requires forall k :: 0 <= k < |p| ==> p[k] < rows * cols
    ensures TapChain(p, cols) <==> IsTrail(Grid.Adjacency(rows, cols), p)
  {
    var adj := Grid.Adjacency(rows, cols);
    if p != [] {
      assert cols > 0 by {
        assert p[0] < rows * cols;
      }
      forall k | 0 <= k < |p| - 1
        ensures p[k + 1] in adj[p[k]] <==> Grid.IsAdjacent(p[k], p[k + 1], cols)
      {
        Grid.NeighboursAreAdjacent(rows, cols, p[k], p[k + 1]);
      }
    }
  }

  /** `tapHistory.join('')` */
  function Join(ss: seq<string>): (r: string)
    ensures |ss| == 1 ==> r == ss[0]
    ensures r == "" <==> forall i :: 0 <= i < |ss| ==> ss[i] == ""
  {
    if ss == [] then "" else ss[0] + Join(ss[1..])
  }

  lemma {:induction false} JoinSnoc(ss: seq<string>, s: string)
    ensures Join(ss + [s]) == Join(ss) + s
  {
    if ss == [] {
      assert ss + [s] == [s];
    } else {
      assert (ss + [s])[1..] == ss[1..] + [s];
      JoinSnoc(ss[1..], s);
      ConcatAssoc(ss[0], Join(ss[1..]), s);
    }
  }

  /** Taps that each appended the tile of their cell spell, joined, what
      the path spells on the board. */
  lemma {:induction false} TapsSpell(tiles: seq<string>, p: seq<nat>, letters: seq<string>)
    requires |p| == |letters|
    requires forall k :: 0 <= k < |p| ==> p[k] < |tiles| && letters[k] == tiles[p[k]]
    ensures Spell(tiles, p) == Join(letters)
  {
    if p != [] {
      TapsSpell(tiles, p[1..], letters[1..]);
    }
  }

  /** `s.slice(0, -k)`: the last k characters dropped, nothing left when k
      exceeds the length, and, since -0 is 0, nothing left for k = 0. */
  function SliceDropLast(s: string, k: nat): (r: string)
    ensures r <= s
    ensures 0 < k <= |s| ==> |r| == |s| - k
    ensures k == 0 || k >= |s| ==> r == ""
  {
    if k == 0 then "" else s[..if k <= |s| then |s| - k else 0]
  }

  /** Deleting a tile's length undoes appending that (non-empty) tile. */
  lemma DropAppended(v: string, t: string)
    requires t != ""
    ensures SliceDropLast(v + t, |t|) == v
  {
    assert (v + t)[..|v|] == v;
  }

  /** The cursor after `historyUp` over a history of length len: from "not
      navigating" to the newest entry, otherwise one older, and no move on
      an empty history or at the oldest entry. */
  function UpIndex(len: nat, i: int): (j: int)
    requires -1 <= i < len
    ensures -1 <= j < len
    ensures len > 0 ==> j != -1
    ensures j == i <==> len == 0 || i == 0
  {
    if len == 0 then i else if i == -1 then len - 1 else if i > 0 then i - 1 else i
  }

  /** The cursor after `historyDown`: no move when not navigating, one
      newer, and past the newest entry back to "not navigating". */
  function DownIndex(len: nat, i: int): (j: int)
    requires -1 <= i < len
    ensures -1 <= j < len
    ensures j == -1 <==> i == -1 || i == len - 1
  {
    if i == -1 then i else if i < len - 1 then i + 1 else -1
  }

  /** Down undoes any move up. */
  lemma DownUndoesUp(len: nat, i: int)
    requires -1 <= i < len && len > 0 && i != 0
    ensures DownIndex(len, UpIndex(len, i)) == i
  {
  }

  /** Up undoes any move down from an entry. */
  lemma UpUndoesDown(len: nat, i: int)
    requires 0 <= i < len
    ensures UpIndex(len, DownIndex(len, i)) == i
  {
  }

  class Controller {
    const session: Session
    var value: string
    var inputHistory: seq<string>
    var historyIndex: int
    var tapHistory: seq<string>
    var tapPath: seq<nat>
    var lastInputWasTouch: bool

    /** One tile per tapped cell, the tapped cells a chain on the current
        board width, and the cursor on an entry or at -1. */
    ghost predicate Valid()
      reads this, session
    {
      && session.Valid()
      && |tapPath| == |tapHistory|
      && TapChain(tapPath, session.cols)
      && -1 <= historyIndex < |inputHistory|
    }

    /** The tap record. */
    function Taps(): (seq<nat>, seq<string>, bool)
      reads this
    {
      (tapPath, tapHistory, lastInputWasTouch)
    }

    constructor (s: Session)
      requires s.Valid()
      ensures Valid() && session == s
      ensures value == "" && inputHistory == [] && historyIndex == -1
      ensures Taps() == ([], [], false)
    {
      session := s;
      value := "";
      inputHistory, historyIndex := [], -1;
      tapHistory, tapPath, lastInputWasTouch := [], [], false;
    }

    /** `resetHistory`: no history, no cursor, no taps. */
    method ResetHistory()
      requires Valid()
      modifies this
      ensures Valid() && value == old(value)
      ensures inputHistory == [] && historyIndex == -1 && Taps() == ([], [], false)
    {
      inputHistory := [];
      historyIndex := -1;
      tapHistory := [];
      tapPath := [];
      lastInputWasTouch := false;
    }

    /** `handleCellTap(letter, idx)`: outside play, on a cell already
        tapped, or on a cell not next to the last tapped one nothing
        changes; otherwise the cell, its tile and the tile's text are
        appended and the cursor leaves the history. */
    method HandleCellTap(letter: string, idx: nat)
      requires Valid()
      modifies this
      ensures Valid() && inputHistory == old(inputHistory)
      ensures session.phase != Playing || !TapAccepted(old(tapPath), idx, session.cols) ==>
                unchanged(this)
      ensures session.phase == Playing && TapAccepted(old(tapPath), idx, session.cols) ==>
                && Taps() == (old(tapPath) + [idx], old(tapHistory) + [letter], true)
                && value == old(value) + letter && historyIndex == -1
    {
      if session.phase != Playing {
        return;
      }
      if idx in tapPath {
        return;
      }
      if |tapPath| > 0 && !Grid.IsAdjacent(tapPath[|tapPath| - 1], idx, session.cols) {
        return;
      }
      TapExtends(tapPath, idx, session.cols);
      lastInputWasTouch := true;
      tapPath := tapPath + [idx];
      tapHistory := tapHistory + [letter];
      value := value + letter;
      historyIndex := -1;
    }

    /** `handleDeleteLetter`: outside play or on an empty input nothing
        changes; after taps the last tap is popped and its whole tile
        removed from the end of the input; otherwise one character is. */
    method HandleDeleteLetter()
      requires Valid()
      modifies this
      ensures Valid() && inputHistory == old(inputHistory)
      ensures lastInputWasTouch == old(lastInputWasTouch)
      ensures session.phase != Playing || old(value) == "" ==> unchanged(this)
      ensures session.phase == Playing && old(value) != "" && old(tapHistory) != [] ==>
                && tapPath == old(tapPath)[..|old(tapPath)| - 1]
                && tapHistory == old(tapHistory)[..|old(tapHistory)| - 1]
                && value == SliceDropLast(old(value), |old(tapHistory)[|old(tapHistory)| - 1]|)
                && historyIndex == -1
      ensures session.phase == Playing && old(value) != "" && old(tapHistory) == [] ==>
                && tapPath == [] && tapHistory == []
                && value == old(value)[..|old(value)| - 1] && historyIndex == -1
    {
      if session.phase != Playing {
        return;
      }
      if value == "" {
        return;
      }
      if |tapHistory| > 0 {
        var removed := tapHistory[|tapHistory| - 1];
        tapHistory := tapHistory[..|tapHistory| - 1];
        tapPath := tapPath[..|tapPath| - 1];
        value := SliceDropLast(value, |removed|);
      } else {
        value := value[..|value| - 1];
      }
      historyIndex := -1;
    }

    /** The input box's `input` listener: the box already holds the edited
        text, and a keyboard edit drops the tap record and the cursor. */
    method HandleKeyboardInput(edited: string)
      requires Valid()
      modifies this
      ensures Valid() && inputHistory == old(inputHistory)
      ensures value == edited && historyIndex == -1 && Taps() == ([], [], false)
    {
      value := edited;
      tapHistory := [];
      tapPath := [];
      lastInputWasTouch := false;
      historyIndex := -1;
    }

    /** `historyUp`: the cursor moves as `UpIndex` says and, when it moved,
        the input shows the entry under it. */
    method HistoryUp()
      requires Valid()
      modifies this
      ensures Valid() && inputHistory == old(inputHistory) && Taps() == old(Taps())
      ensures historyIndex == UpIndex(|inputHistory|, old(historyIndex))
      ensures historyIndex == old(historyIndex) ==> value == old(value)
      ensures historyIndex != old(historyIndex) ==> value == inputHistory[historyIndex]
    {
      if |inputHistory| == 0 {
        return;
      }
      if historyIndex == -1 {
        historyIndex := |inputHistory| - 1;
      } else if historyIndex > 0 {
        historyIndex := historyIndex - 1;
      } else {
        return;
      }
      value := inputHistory[historyIndex];
    }

    /** `historyDown`: the cursor moves as `DownIndex` says; the input shows
        the entry under it, or is cleared when the cursor left the newest
        entry. */
    method HistoryDown()
      requires Valid()
      modifies this
      ensures Valid() && inputHistory == old(inputHistory) && Taps() == old(Taps())
      ensures historyIndex == DownIndex(|inputHistory|, old(historyIndex))
      ensures old(historyIndex) == -1 ==> value == old(value)
      ensures old(historyIndex) != -1 && historyIndex == -1 ==> value == ""
      ensures historyIndex != -1 ==> value == inputHistory[historyIndex]
    {
      if historyIndex == -1 {
        return;
      }
      if historyIndex < |inputHistory| - 1 {
        historyIndex := historyIndex + 1;
        value := inputHistory[historyIndex];
      } else {
        historyIndex := -1;
        value := "";
      }
    }

    /** A submit goes ahead: a game is in play and the trimmed input is
        not blank. */
    predicate Submits()
      reads this, session
    {
      session.phase == Playing && Trim(value) != ""
    }

    /** `handleSubmit`: outside play or with a blank (trimmed) input nothing
        changes.  Otherwise the trimmed word joins the history, the cursor
        and the tap record are dropped, the word is submitted, the input is
        cleared, and an accepted word that completes the board's word set
        ends the game (a sweep). */
    method HandleSubmit() returns (outcome: Option<SubmitResult>)
      requires Valid()
      modifies this, session
      ensures Valid()
      ensures !old(Submits()) ==> outcome.None? && unchanged(this) && unchanged(session)
      ensures old(Submits()) ==>
                && outcome.Some?
                && inputHistory == old(inputHistory) + [Trim(old(value))] && historyIndex == -1
                && Taps() == ([], [], old(lastInputWasTouch)) && value == ""
      ensures old(Submits()) ==>
                && session.Choices() == old(session.Choices())
                && session.grid == old(session.grid) && session.allWords == old(session.allWords)
                && session.timeLeft == old(session.timeLeft)
      ensures old(Submits()) ==>
                (outcome.value == Accepted <==>
                   Lower(Trim(old(value))) !in old(session.foundWords) &&
                   Lower(Trim(old(value))) in old(session.allWords.value))
      ensures old(Submits()) && outcome.value == Accepted ==>
                session.foundWords == old(session.foundWords) + {Lower(Trim(old(value)))}
      ensures old(Submits()) && outcome.value != Accepted ==>
                session.foundWords == old(session.foundWords) && session.score == old(session.score)
      ensures old(Submits()) ==>
                if outcome.value == Accepted && |session.foundWords| == |session.allWords.value|
                then session.phase == Results && session.timerHandle == None
                else session.phase == Playing && session.timerHandle == old(session.timerHandle)
    {
      if session.phase != Playing {
        return None;
      }
      var word := Trim(value);
      if word == "" {
        return None;
      }
      var r := session.SubmitWord(word);
      if r == Accepted && |session.foundWords| == |session.allWords.value| {
        session.EndGame();
      }
      inputHistory := inputHistory + [word];
      historyIndex := -1;
      tapHistory := [];
      tapPath := [];
      outcome := Some(r);
      value := "";
    }
  }
}
