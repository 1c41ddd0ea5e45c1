/** The bounded undo/redo history of the canvas editor (app.js:344-409).

    The editor keeps two stacks of whole-canvas snapshots around the live
    canvas. A `Timeline` holds all three; its stacks grow at the end, so the
    newest entry of each is its last element, as with JavaScript's
    `push`/`pop`, and `shift` drops the first (oldest) element. */
module UndoHistory {

  /** The undo depth above which saveCanvasState drops the oldest entry. */
  const MaxUndo: nat := 50

  datatype Timeline<T> = Timeline(undo: seq<T>, current: T, redo: seq<T>)

  /** The last `n` entries of `s`, or all of `s` when it is shorter. */
  function Newest<T>(s: seq<T>, n: nat): (r: seq<T>)
    ensures |r| == if |s| <= n then |s| else n
  {
    if |s| <= n then s else s[|s| - n..]
  }

  /** saveCanvasState: push the live canvas onto the undo stack, drop the
      oldest entry once the stack is longer than MaxUndo, and empty the redo
      stack. The live canvas itself is not touched. */
  function Save<T>(t: Timeline<T>): (r: Timeline<T>)
    ensures r.current == t.current && r.redo == []
    ensures |t.undo| < MaxUndo ==> |r.undo| == |t.undo| + 1
    ensures |t.undo| >= MaxUndo ==> |r.undo| == |t.undo|
    ensures r.undo[|r.undo| - 1] == t.current
  {
    var pushed := t.undo + [t.current];
    Timeline(if |pushed| > MaxUndo then pushed[1..] else pushed, t.current, [])
  }

  /** performUndo: with an empty undo stack nothing changes; otherwise the
      live canvas goes onto the redo stack and the newest undo entry becomes
      the live canvas. */
  function Undo<T>(t: Timeline<T>): (r: Timeline<T>)
    ensures t.undo == [] ==> r == t
    ensures t.undo != [] ==> r.undo + [r.current] == t.undo && r.redo == t.redo + [t.current]
  {
    if t.undo == [] then t
    else Timeline(t.undo[..|t.undo| - 1], t.undo[|t.undo| - 1], t.redo + [t.current])
  }

  /** performRedo: the mirror image of Undo. The push onto the undo stack
      applies no MaxUndo limit. */
  function Redo<T>(t: Timeline<T>): (r: Timeline<T>)
    ensures t.redo == [] ==> r == t
    ensures t.redo != [] ==> r.redo + [r.current] == t.redo && r.undo == t.undo + [t.current]
  {
    if t.redo == [] then t
    else Timeline(t.undo + [t.current], t.redo[|t.redo| - 1], t.redo[..|t.redo| - 1])
  }

  /** The invariant the editor keeps: the two stacks together hold at most
      MaxUndo snapshots. */
  predicate Bounded<T>(t: Timeline<T>)
  {
    |t.undo| + |t.redo| <= MaxUndo
  }

  /** Saving, undoing and redoing all keep the stacks Bounded, and a Bounded
      timeline never has more than MaxUndo undo entries. So the missing limit
      on Redo's push can never show from a state the editor reaches. */
  lemma StepsKeepBounded<T>(t: Timeline<T>, doc: T)
    requires Bounded(t)
    ensures Bounded(Save(t).(current := doc))
    ensures Bounded(Undo(t)) && Bounded(Redo(t))
    ensures |t.undo| <= MaxUndo && |Redo(t).undo| <= MaxUndo
  {
  }

  /** Redo alone does not keep the undo stack within MaxUndo: from a timeline
      outside the invariant it pushes the undo stack to MaxUndo + 1. */
  lemma RedoHasNoLimit<T>(x: T)
    ensures var t := Timeline(seq(MaxUndo, _ => x), x, [x]);
      !Bounded(t) && |t.undo| == MaxUndo && |Redo(t).undo| == MaxUndo + 1
  {
  }

  /** Undo followed by Redo gives back the timeline as it was. */
  lemma UndoThenRedo<T>(t: Timeline<T>)
    requires t.undo != []
    ensures Redo(Undo(t)) == t
  {
    var u := Undo(t);
    assert u.undo + [u.current] == t.undo;
  }

  /** Redo followed by Undo gives back the timeline as it was. */
  lemma RedoThenUndo<T>(t: Timeline<T>)
    requires t.redo != []
    ensures Undo(Redo(t)) == t
  {
    var r := Redo(t);
    assert r.redo + [r.current] == t.redo;
  }

  /** Undo right after a recorded change gives back the canvas from before
      the change, with the changed canvas as the only redo entry; below the
      limit the undo stack is also exactly as before. */
  lemma UndoRevertsChange<T>(t: Timeline<T>, doc: T)
    ensures var u := Undo(Save(t).(current := doc));
      u.current == t.current && u.redo == [doc]
    ensures |t.undo| < MaxUndo ==> Undo(Save(t).(current := doc)) == Timeline(t.undo, t.current, [doc])
  {
    var s := Save(t).(current := doc);
    assert s.undo[..|s.undo| - 1] + [s.undo[|s.undo| - 1]] == s.undo;
  }

  /** After undoing and then recording a new change, nothing is left to redo:
      Redo is a no-op. */
  lemma EditAfterUndoDropsRedo<T>(t: Timeline<T>, doc: T)
    requires t.undo != []
    ensures Undo(t).redo != []
    ensures var e := Save(Undo(t)).(current := doc); Redo(e) == e
  {
  }

  /** A run of recorded changes: each saves the live canvas, then replaces it
      with the next document of `docs`. */
  function Edits<T>(t: Timeline<T>, docs: seq<T>): Timeline<T>
    decreases |docs|
  {
    if docs == [] then t else Edits(Step(t, docs[0]), docs[1..])
  }

  /** One recorded change: save, then show `doc`. */
  function Step<T>(t: Timeline<T>, doc: T): Timeline<T>
  {
    Save(t).(current := doc)
  }

  /** `k` undos in a row. */
  function UndoTimes<T>(t: Timeline<T>, k: nat): Timeline<T>
    decreases k
  {
    if k == 0 then t else UndoTimes(Undo(t), k - 1)
  }

  lemma NewestOfNewest<T>(s: seq<T>, u: seq<T>, n: nat, m: nat)
    requires m <= n + |u|
    ensures Newest(Newest(s, n) + u, m) == Newest(s + u, m)
  {
    if |s| > n {
      var x := Newest(s, n) + u;
      assert x == (s + u)[|s| - n..];
      assert x[|x| - m..] == (s + u)[|s + u| - m..];
    }
  }

  /** Save keeps the newest MaxUndo snapshots of the undo stack followed by
      the live canvas. */
  lemma {:induction false} SaveKeepsNewest<T>(t: Timeline<T>)
    requires |t.undo| <= MaxUndo
    ensures Save(t).undo == Newest(t.undo + [t.current], MaxUndo)
  {
  }

  /** After a run of recorded changes from a state within the undo limit, the
      undo stack followed by the live canvas is exactly the newest
      MaxUndo + 1 documents of the whole run, the starting point included, and
      there is nothing to redo. */
  lemma {:induction false} EditsKeepNewest<T>(t: Timeline<T>, docs: seq<T>)
    requires |t.undo| <= MaxUndo
    ensures var e := Edits(t, docs);
      e.undo + [e.current] == Newest(t.undo + [t.current] + docs, MaxUndo + 1)
    ensures docs != [] ==> Edits(t, docs).redo == []
    decreases |docs|
  {
    if docs != [] {
      var t1 := Step(t, docs[0]);
      var s := t.undo + [t.current];
      assert Edits(t, docs) == Edits(t1, docs[1..]);
      SaveKeepsNewest(t);
      EditsKeepNewest(t1, docs[1..]);
      assert [docs[0]] + docs[1..] == docs;
      assert t1.undo + [t1.current] + docs[1..] == Newest(s, MaxUndo) + docs;
      NewestOfNewest(s, docs, MaxUndo, MaxUndo + 1);
    }
  }

  /** `k` undos in a row, when at least `k` snapshots are stacked, walk back
      `k` steps along the undo stack followed by the live canvas. */
  lemma {:induction false} UndoTimesWalksBack<T>(t: Timeline<T>, k: nat)
    requires k <= |t.undo|
    decreases k
    ensures var u := UndoTimes(t, k);
      u.undo + [u.current] == (t.undo + [t.current])[..|t.undo| + 1 - k]
  {
    if k > 0 {
      var t1 := Undo(t);
      UndoTimesWalksBack(t1, k - 1);
      assert t1.undo + [t1.current] == t.undo;
      assert (t1.undo + [t1.current])[..|t1.undo| + 1 - (k - 1)] == (t.undo + [t.current])[..|t.undo| + 1 - k];
    }
  }

  /** Once the undo stack is empty, further undos change nothing. */
  lemma {:induction false} UndoTimesExhausted<T>(t: Timeline<T>, k: nat)
    requires t.undo == []
    ensures UndoTimes(t, k) == t
    decreases k
  {
    if k > 0 {
      UndoTimesExhausted(Undo(t), k - 1);
    }
  }

  function Min(a: nat, b: nat): nat
  {
    if a <= b then a else b
  }

  /** Up to MaxUndo recorded changes are all revertible: undoing as many
      times as there were changes gives back the starting canvas. */
  lemma {:induction false} UndoRevertsEdits<T>(t: Timeline<T>, docs: seq<T>)
    requires |t.undo| <= MaxUndo && |docs| <= MaxUndo
    ensures UndoTimes(Edits(t, docs), |docs|).current == t.current
  {
    var e := Edits(t, docs);
    var line := t.undo + [t.current] + docs;
    EditsKeepNewest(t, docs);
    assert |e.undo| + 1 == Min(|line|, MaxUndo + 1);
    UndoWalksAlong(e, line, |docs|);
  }

  /** After recorded changes from an empty undo stack, the undo stack and
      the live canvas are the newest Min(|docs|, MaxUndo) + 1 documents of
      the run. */
  lemma {:induction false} EditsFromEmpty<T>(t: Timeline<T>, docs: seq<T>)
    requires t.undo == []
    ensures var e := Edits(t, docs);
      && |e.undo| == Min(|docs|, MaxUndo)
      && e.undo + [e.current] == ([t.current] + docs)[|docs| - |e.undo|..]
  {
    var e := Edits(t, docs);
    var line := [t.current] + docs;
    assert t.undo + [t.current] == [t.current];
    EditsKeepNewest(t, docs);
    var w := Newest(line, MaxUndo + 1);
    assert e.undo + [e.current] == w;
    assert |w| == |e.undo| + 1;
  }

  /** From an empty undo stack, after the recorded changes `docs`, `k` undos
      in a row show the document `min(k, |docs|, MaxUndo)` steps back from
      the newest: only the MaxUndo documents before the newest can be reached
      again, and undos beyond them change nothing. With 60 changes, the 10
      oldest documents are lost. */
  lemma {:induction false} OnlyNewestRecoverable<T>(t: Timeline<T>, docs: seq<T>, k: nat)
    requires t.undo == []
    ensures UndoTimes(Edits(t, docs), k).current
      == ([t.current] + docs)[|docs| - Min(k, Min(|docs|, MaxUndo))]
  {
    EditsFromEmpty(t, docs);
    UndoWalksAlong(Edits(t, docs), [t.current] + docs, k);
  }

  /** When the undo stack and the live canvas end the sequence `line`, `k`
      undos show the entry `min(k, |undo|)` steps back from its end. */
  lemma {:induction false} UndoWalksAlong<T>(e: Timeline<T>, line: seq<T>, k: nat)
    requires |e.undo| < |line|
    requires e.undo + [e.current] == line[|line| - |e.undo| - 1..]
    ensures UndoTimes(e, k).current == line[|line| - 1 - Min(k, |e.undo|)]
  {
    var n := |e.undo|;
    var back := Min(k, n);
    UndoTimesWalksBack(e, back);
    var u := UndoTimes(e, back);
    var w := e.undo + [e.current];
    assert u.undo + [u.current] == w[..n + 1 - back];
    assert u.current == w[n - back];
    if k > n {
      assert |u.undo| == 0;
      UndoTimesAfter(e, n, k - n);
      UndoTimesExhausted(u, k - n);
    }
  }

  /** Undoing `a` times and then `b` times is undoing `a + b` times. */
  lemma {:induction false} UndoTimesAfter<T>(t: Timeline<T>, a: nat, b: nat)
    ensures UndoTimes(UndoTimes(t, a), b) == UndoTimes(t, a + b)
    decreases a
  {
    if a > 0 {
      UndoTimesAfter(Undo(t), a - 1, b);
    }
  }
}
