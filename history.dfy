/**
 * engine/history.py: a bounded undo/redo history of commands. Both stacks
 * are deques created with `maxlen=max_size`, so appending to a full deque
 * drops its oldest entry. The value-level functions below describe what each
 * operation does to the pair of stacks; the class applies them to
 * `DrawCommand`s and runs the commands on their layers.
 */
module History {
  import opened Tools

  /** The default `max_size`. */
  const DEFAULT_MAX_SIZE: nat := 50

  /** The newest `n` entries of `s`: what a deque of `maxlen=n` holding `s` keeps. */
  function Newest<T>(s: seq<T>, n: nat): (r: seq<T>)
    ensures |r| == if |s| <= n then |s| else n
    ensures r == s[|s| - |r|..]
  {
    if |s| <= n then s else s[|s| - n..]
  }

  /** `deque.append(x)` on a deque of `maxlen=n`: `x` becomes the newest entry and the oldest may be dropped. */
  function Append<T>(q: seq<T>, x: T, n: nat): seq<T>
  {
    Newest(q + [x], n)
  }

  /** An append to a deque that is not full keeps every entry. */
  lemma AppendWithRoom<T>(q: seq<T>, x: T, n: nat)
    requires |q| < n
    ensures Append(q, x, n) == q + [x]
  {
  }

  /** An append to a full deque of positive size drops exactly the oldest entry. */
  lemma AppendWhenFull<T>(q: seq<T>, x: T, n: nat)
    requires |q| == n > 0
    ensures Append(q, x, n) == q[1..] + [x]
  {
    assert Append(q, x, n) == (q + [x])[1..];
  }

  /** The two deques of a history: undo (newest last) and redo (newest last). */
  datatype Stacks<T> = Stacks(undo: seq<T>, redo: seq<T>)

  /** Together the stacks never hold more than `n` commands. */
  predicate Bounded<T>(st: Stacks<T>, n: nat)
  {
    |st.undo| + |st.redo| <= n
  }

  /** `execute`: push onto undo, clear redo. */
  function ExecuteStep<T>(st: Stacks<T>, c: T, n: nat): Stacks<T>
  {
    Stacks(Append(st.undo, c, n), [])
  }

  /** `undo`: nothing on an empty undo stack, else move its newest entry onto redo. */
  function UndoStep<T>(st: Stacks<T>, n: nat): Stacks<T>
  {
    if st.undo == [] then st
    else Stacks(st.undo[..|st.undo| - 1], Append(st.redo, st.undo[|st.undo| - 1], n))
  }

  /** `redo`: nothing on an empty redo stack, else move its newest entry onto undo. */
  function RedoStep<T>(st: Stacks<T>, n: nat): Stacks<T>
  {
    if st.redo == [] then st
    else Stacks(Append(st.undo, st.redo[|st.redo| - 1], n), st.redo[..|st.redo| - 1])
  }

  /** Every operation keeps the two stacks within `max_size` together. */
  lemma StepsKeepBound<T>(st: Stacks<T>, c: T, n: nat)
    requires Bounded(st, n)
    ensures Bounded(ExecuteStep(st, c, n), n)
    ensures Bounded(UndoStep(st, n), n)
    ensures Bounded(RedoStep(st, n), n)
  {
  }

  /** Within the bound, `undo` never evicts: it moves one entry from one stack to the other. */
  lemma UndoMoves<T>(st: Stacks<T>, n: nat)
    requires Bounded(st, n) && st.undo != []
    ensures UndoStep(st, n) == Stacks(st.undo[..|st.undo| - 1], st.redo + [st.undo[|st.undo| - 1]])
  {
    AppendWithRoom(st.redo, st.undo[|st.undo| - 1], n);
  }

  /** Within the bound, `redo` never evicts either. */
  lemma RedoMoves<T>(st: Stacks<T>, n: nat)
    requires Bounded(st, n) && st.redo != []
    ensures RedoStep(st, n) == Stacks(st.undo + [st.redo[|st.redo| - 1]], st.redo[..|st.redo| - 1])
  {
    AppendWithRoom(st.undo, st.redo[|st.redo| - 1], n);
  }

  /** Undo followed by redo restores both stacks exactly. */
  lemma UndoThenRedo<T>(st: Stacks<T>, n: nat)
    requires Bounded(st, n) && st.undo != []
    ensures RedoStep(UndoStep(st, n), n) == st
  {
    var rest, u := st.undo[..|st.undo| - 1], st.undo[|st.undo| - 1];
    UndoMoves(st, n);
    var mid := Stacks(rest, st.redo + [u]);
    RedoMoves(mid, n);
    assert mid.redo[..|mid.redo| - 1] == st.redo;
    assert rest + [u] == st.undo;
  }

  /** Redo followed by undo restores both stacks exactly. */
  lemma RedoThenUndo<T>(st: Stacks<T>, n: nat)
    requires Bounded(st, n) && st.redo != []
    ensures UndoStep(RedoStep(st, n), n) == st
  {
    var rest, r := st.redo[..|st.redo| - 1], st.redo[|st.redo| - 1];
    RedoMoves(st, n);
    var mid := Stacks(st.undo + [r], rest);
    UndoMoves(mid, n);
    assert mid.undo[..|mid.undo| - 1] == st.undo;
    assert rest + [r] == st.redo;
  }

  /** `execute` applied to each command of `cs` in turn. */
  function ExecuteAll<T>(st: Stacks<T>, cs: seq<T>, n: nat): Stacks<T>
    decreases |cs|
  {
    if cs == [] then st else ExecuteStep(ExecuteAll(st, cs[..|cs| - 1], n), cs[|cs| - 1], n)
  }

  /** Keeping the newest `n` of a sequence and then appending is appending and then keeping the newest `n`. */
  lemma NewestAppend<T>(s: seq<T>, x: T, n: nat)
    ensures Newest(Newest(s, n) + [x], n) == Newest(s + [x], n)
  {
    if 0 < n < |s| {
      var k := |s| - n;
      calc {
        Newest(Newest(s, n) + [x], n);
        Newest(s[k..] + [x], n);
        (s[k..] + [x])[1..];
        { assert (s[k..] + [x])[1..] == s[k + 1..] + [x]; }
        s[k + 1..] + [x];
        { assert (s + [x])[k + 1..] == s[k + 1..] + [x]; }
        Newest(s + [x], n);
      }
    }
  }

  /**
   * A run of executes keeps the newest `max_size` of the old undo stack
   * followed by the commands, and leaves redo empty.
   */
  lemma {:induction false} ExecuteAllKeepsNewest<T>(st: Stacks<T>, cs: seq<T>, n: nat)
    requires cs != [] && |st.undo| <= n
    ensures ExecuteAll(st, cs, n) == Stacks(Newest(st.undo + cs, n), [])
    decreases |cs|
  {
    var init, c := cs[..|cs| - 1], cs[|cs| - 1];
    var before := ExecuteAll(st, init, n);
    assert before.undo == Newest(st.undo + init, n) by {
      if init == [] {
        assert st.undo + init == st.undo;
      } else {
        ExecuteAllKeepsNewest(st, init, n);
      }
    }
    calc {
      ExecuteAll(st, cs, n);
      ExecuteStep(before, c, n);
      Stacks(Newest(before.undo + [c], n), []);
      { NewestAppend(st.undo + init, c, n); }
      Stacks(Newest((st.undo + init) + [c], n), []);
      { assert (st.undo + init) + [c] == st.undo + cs; }
      Stacks(Newest(st.undo + cs, n), []);
    }
  }

  /** At least `max_size` executes leave exactly the `max_size` most recent commands on undo. */
  lemma ManyExecutesKeepLast<T>(st: Stacks<T>, cs: seq<T>, n: nat)
    requires |st.undo| <= n && |cs| >= n && cs != []
    ensures ExecuteAll(st, cs, n).undo == cs[|cs| - n..]
    ensures ExecuteAll(st, cs, n).redo == []
  {
    ExecuteAllKeepsNewest(st, cs, n);
    assert Newest(st.undo + cs, n) == cs[|cs| - n..];
  }

  /** Every command of `s` can be run on its layer. */
  predicate AllReady(s: seq<DrawCommand>)
  {
    forall i :: 0 <= i < |s| ==> s[i].Ready()
  }

  /** Appending a runnable command to a deque of runnable commands keeps them all runnable. */
  lemma AppendReady(q: seq<DrawCommand>, c: DrawCommand, n: nat)
    requires AllReady(q) && c.Ready()
    ensures AllReady(Append(q, c, n))
  {
    var s := q + [c];
    assert AllReady(s);
    assert Append(q, c, n) == s[|s| - |Append(q, c, n)|..];
  }

  /** Dropping the newest command keeps the rest runnable. */
  lemma PopReady(q: seq<DrawCommand>)
    requires q != [] && AllReady(q)
    ensures AllReady(q[..|q| - 1]) && q[|q| - 1].Ready()
  {
  }

  /** `undo` keeps the stacks bounded and every command on them runnable. */
  lemma UndoKeepsReady(st: Stacks<DrawCommand>, n: nat)
    requires Bounded(st, n) && AllReady(st.undo) && AllReady(st.redo)
    ensures var u := UndoStep(st, n); Bounded(u, n) && AllReady(u.undo) && AllReady(u.redo)
  {
    if st.undo != [] {
      PopReady(st.undo);
      AppendReady(st.redo, st.undo[|st.undo| - 1], n);
    }
  }

  /** `redo` keeps the stacks bounded and every command on them runnable. */
  lemma RedoKeepsReady(st: Stacks<DrawCommand>, n: nat)
    requires Bounded(st, n) && AllReady(st.undo) && AllReady(st.redo)
    ensures var r := RedoStep(st, n); Bounded(r, n) && AllReady(r.undo) && AllReady(r.redo)
  {
    if st.redo != [] {
      PopReady(st.redo);
      AppendReady(st.undo, st.redo[|st.redo| - 1], n);
    }
  }

  class History {
    const maxSize: nat
    var undoStack: seq<DrawCommand>
    var redoStack: seq<DrawCommand>

    /** The value-level view of both deques. */
    function State(): Stacks<DrawCommand>
      reads this
    {
      Stacks(undoStack, redoStack)
    }

    /** The stacks stay within `max_size` together, and every stored command can be run. */
    ghost predicate Valid()
      reads this
    {
      Bounded(State(), maxSize) && AllReady(undoStack) && AllReady(redoStack)
    }

    /** `History(max_size=50)`: two empty deques of `maxlen=max_size`. */
    constructor (maxSize: nat := DEFAULT_MAX_SIZE)
      ensures this.maxSize == maxSize && undoStack == [] && redoStack == []
      ensures Valid()
    {
      this.maxSize := maxSize;
      undoStack := [];
      redoStack := [];
    }

    /** `execute`: run the command on its layer, push it onto undo and clear redo. */
    method Execute(command: DrawCommand)
      requires Valid() && command.Ready()
      modifies this, command.layer.pixels
      ensures Valid()
      ensures State() == ExecuteStep(old(State()), command, maxSize)
      ensures command.layer.pixels[..] == command.newState[..]
    {
      command.Execute();
      StepsKeepBound(State(), command, maxSize);
      AppendReady(undoStack, command, maxSize);
      undoStack := Append(undoStack, command, maxSize);
      redoStack := [];
    }

    /** `undo`: nothing when undo is empty; else undo its newest command and move it onto redo. */
    method Undo()
      requires Valid()
      modifies this, if undoStack == [] then {} else {undoStack[|undoStack| - 1].layer.pixels}
      ensures Valid()
      ensures State() == UndoStep(old(State()), maxSize)
      ensures old(undoStack) != [] ==>
        var c := old(undoStack)[|old(undoStack)| - 1];
        c.layer.pixels[..] == c.prevState[..]
    {
      if undoStack != [] {
        var cmd := undoStack[|undoStack| - 1];
        ghost var after := UndoStep(State(), maxSize);
        UndoKeepsReady(State(), maxSize);
        undoStack := undoStack[..|undoStack| - 1];
        cmd.Undo();
        redoStack := Append(redoStack, cmd, maxSize);
        assert State() == after;
      }
    }

    /** `redo`: nothing when redo is empty; else re-execute its newest command and move it onto undo. */
    method Redo()
      requires Valid()
      modifies this, if redoStack == [] then {} else {redoStack[|redoStack| - 1].layer.pixels}
      ensures Valid()
      ensures State() == RedoStep(old(State()), maxSize)
      ensures old(redoStack) != [] ==>
        var c := old(redoStack)[|old(redoStack)| - 1];
        c.layer.pixels[..] == c.newState[..]
    {
      if redoStack != [] {
        var cmd := redoStack[|redoStack| - 1];
        ghost var after := RedoStep(State(), maxSize);
        RedoKeepsReady(State(), maxSize);
        redoStack := redoStack[..|redoStack| - 1];
        cmd.Execute();
        undoStack := Append(undoStack, cmd, maxSize);
        assert State() == after;
      }
    }
  }
}
