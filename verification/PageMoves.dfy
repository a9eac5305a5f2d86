/** Undo and redo of page moves (BookTextView.cpp). */
module PageMoves {
  import opened Basics

  datatype Position = Position(paragraph: int, word: int, character: int)

  const MAX_STACK_SIZE := 20

  /** The stack with its current point, whether it has been changed since it was saved, the saved one, and the text
      area: the place of its first line, which is unknown while the area is only laid out from its end. */
  datatype View = View(stack: seq<Position>, point: int, changed: bool, saved: seq<Position>,
                       start: Option<Position>, hasEnd: bool)

  predicate Valid(v: View)
  {
    && 0 <= v.point <= |v.stack| <= MAX_STACK_SIZE
    && (v.changed || v.stack == v.saved)
  }

  predicate AreaEmpty(v: View) { v.start.None? && !v.hasEnd }

  // ---------- what each operation does ----------

  /** Drops the oldest entries of a stack that is too long; the point moves with what remains. */
  function Trimmed(v: View): (r: View)
    requires 0 <= v.point <= |v.stack|
    ensures 0 <= r.point <= |r.stack| <= MAX_STACK_SIZE
    ensures |r.stack| <= |v.stack| && r.stack == v.stack[|v.stack| - |r.stack|..]
    ensures |v.stack| <= MAX_STACK_SIZE ==> r == v
    ensures r.(stack := v.stack, point := v.point) == v
    decreases |v.stack|
  {
    if |v.stack| <= MAX_STACK_SIZE then v
    else Trimmed(v.(stack := v.stack[1..], point := if v.point > 0 then v.point - 1 else v.point))
  }

  lemma TrimmedOnce(v: View)
    requires 0 <= v.point <= |v.stack| && |v.stack| > MAX_STACK_SIZE
    ensures Trimmed(v) == Trimmed(v.(stack := v.stack[1..], point := if v.point > 0 then v.point - 1 else v.point))
  {
  }

  /** The newest entries, with the point on its entry or, when that is dropped, on the oldest one. */
  function Newest(v: View): View
    requires 0 <= v.point <= |v.stack|
  {
    var dropped := |v.stack| - MAX_STACK_SIZE;
    if dropped <= 0 then v
    else v.(stack := v.stack[dropped..], point := if v.point >= dropped then v.point - dropped else 0)
  }

  lemma {:induction false} TrimmedIsNewest(v: View)
    requires 0 <= v.point <= |v.stack|
    ensures Trimmed(v) == Newest(v)
    decreases |v.stack|
  {
    if |v.stack| > MAX_STACK_SIZE {
      hide Trimmed, Newest;
      var w := v.(stack := v.stack[1..], point := if v.point > 0 then v.point - 1 else v.point);
      TrimmedOnce(v);
      TrimmedIsNewest(w);
      NewestOnce(v);
    }
  }

  lemma NewestOnce(v: View)
    requires 0 <= v.point <= |v.stack| && |v.stack| > MAX_STACK_SIZE
    ensures Newest(v.(stack := v.stack[1..], point := if v.point > 0 then v.point - 1 else v.point)) == Newest(v)
  {
    var d := |v.stack| - MAX_STACK_SIZE;
    var w := v.(stack := v.stack[1..], point := if v.point > 0 then v.point - 1 else v.point);
    if d == 1 {
      assert Newest(w) == w;
    } else {
      assert Newest(w).stack == w.stack[d - 1..] == v.stack[d..];
    }
  }

  /** A book as it is opened: the saved stack, trimmed, and the saved point if it fits the saved stack. */
  function Opened(loaded: seq<Position>, stackPos: int, start: Option<Position>, hasEnd: bool): (r: View)
    ensures Valid(r) && r.start == start && r.saved == loaded
  {
    var p := if 0 <= stackPos <= |loaded| then stackPos else |loaded|;
    Trimmed(View(loaded, p, |loaded| > MAX_STACK_SIZE, loaded, start, hasEnd))
  }

  predicate Pushes(v: View) { v.start.Some? && (v.stack == [] || v.stack[|v.stack| - 1] != v.start.value) }

  function Push(v: View): View
    requires 0 <= v.point <= |v.stack|
  {
    if Pushes(v) then Trimmed(v.(stack := v.stack + [v.start.value], changed := true)) else v
  }

  function Replace(v: View): View
    requires 0 <= v.point < |v.stack|
  {
    if v.start.Some? then v.(stack := v.stack[v.point := v.start.value], changed := true) else v
  }

  /** A jump; `start` and `hasEnd` say where the text area is afterwards. */
  function Goto(v: View, start: Option<Position>, hasEnd: bool): View
    requires Valid(v)
  {
    if AreaEmpty(v) then v
    else
      var cut := if |v.stack| > v.point then v.(stack := v.stack[..v.point], changed := true) else v;
      var pushed := Push(cut);
      pushed.(point := |pushed.stack|, start := start, hasEnd := hasEnd)
  }

  predicate CanUndo(v: View)
  {
    && !AreaEmpty(v) && v.point != 0
    && (v.point == 1 && |v.stack| == 1 && v.start.Some? ==> v.stack[0] != v.start.value)
  }

  /** Undo with an unknown first line and one entry takes the point below zero. */
  predicate UndoFits(v: View) { !(v.point == 1 && |v.stack| == 1 && v.start.None?) }

  function UndoPoint(v: View): View
    requires Valid(v) && CanUndo(v)
  {
    if v.point == |v.stack| then
      var pushed := Push(v);
      if Pushes(v) then pushed.(point := pushed.point - 1) else pushed.(point := pushed.point - 2)
    else
      var replaced := Replace(v);
      replaced.(point := replaced.point - 1)
  }

  function Undo(v: View): View
    requires Valid(v) && (CanUndo(v) ==> UndoFits(v))
  {
    if CanUndo(v) then
      var u := UndoPoint(v);
      UndoIndexExactly(v);
      u.(start := Some(u.stack[u.point]))
    else v
  }

  predicate CanRedo(v: View) { !AreaEmpty(v) && v.point + 1 < |v.stack| }

  function Redo(v: View): View
    requires Valid(v)
  {
    if CanRedo(v) then
      var r := Replace(v);
      var t := r.(point := r.point + 1, start := Some(r.stack[r.point + 1]));
      if t.point + 1 == |t.stack| then t.(stack := t.stack[..t.point], changed := true) else t
    else v
  }

  /** The entry that undo goes to exists exactly when the first line is known or there are more entries. */
  lemma UndoIndexExactly(v: View)
    requires Valid(v) && CanUndo(v)
    ensures 0 <= UndoPoint(v).point < |UndoPoint(v).stack| <==> UndoFits(v)
  {
  }

  // ---------- the view ----------

  class BookTextView {
    var stack: seq<Position>
    var point: int
    var stackChanged: bool
    /** The stack in the data base. */
    var savedStack: seq<Position>
    var start: Option<Position>
    var hasEnd: bool

    constructor ()
      ensures Valid(State()) && stack == [] && savedStack == []
    {
      stack, point, stackChanged, savedStack := [], 0, false, [];
      start, hasEnd := None, false;
    }

    function State(): View
      reads this
    {
      View(stack, point, stackChanged, savedStack, start, hasEnd)
    }

    /** Opens a book with its saved stack and point; `readStart` is the saved reading position. */
    method SetModel(loaded: seq<Position>, stackPos: int, readStart: Option<Position>, readEnd: bool)
      modifies this
      ensures State() == Opened(loaded, stackPos, readStart, readEnd)
    {
      start, hasEnd := readStart, readEnd;
      point := 0;
      stack := loaded;
      savedStack := loaded;
      stackChanged := false;
      if |stack| > 0 {
        var pos := stackPos;
        if pos < 0 || pos > |stack| {
          pos := |stack|;
        }
        point := pos;
        stackChanged := |stack| > MAX_STACK_SIZE;
        DropOldest();
      }
    }

    method DropOldest()
      requires 0 <= point <= |stack|
      modifies this
      ensures State() == Trimmed(old(State()))
    {
      hide Trimmed;
      ghost var trimmed := Trimmed(State());
      while |stack| > MAX_STACK_SIZE
        invariant 0 <= point <= |stack| && Trimmed(State()) == trimmed
      {
        TrimmedOnce(State());
        stack := stack[1..];
        if point > 0 {
          point := point - 1;
        }
      }
    }

    method SaveState()
      requires Valid(State())
      modifies this
      ensures State() == old(State()).(changed := stackChanged, saved := savedStack)
      ensures old(start).Some? ==> !stackChanged && savedStack == stack
      ensures old(start).None? ==> stackChanged == old(stackChanged) && savedStack == old(savedStack)
    {
      if start.Some? && stackChanged {
        savedStack := stack;
        stackChanged := false;
      }
    }

    method PushCurrentPositionIntoStack(doPushSamePosition: bool) returns (pushed: bool)
      requires 0 <= point <= |stack|
      modifies this
      ensures !doPushSamePosition ==> pushed == Pushes(old(State())) && State() == Push(old(State()))
      ensures doPushSamePosition ==> pushed == start.Some?
      ensures doPushSamePosition && pushed ==>
        State() == Trimmed(old(State()).(stack := old(stack) + [start.value], changed := true))
      ensures !pushed ==> State() == old(State())
    {
      hide Trimmed;
      if start.None? {
        return false;
      }
      if !doPushSamePosition && stack != [] && stack[|stack| - 1] == start.value {
        return false;
      }
      stack := stack + [start.value];
      stackChanged := true;
      DropOldest();
      pushed := true;
    }

    method ReplaceCurrentPositionInStack()
      requires 0 <= point < |stack|
      modifies this
      ensures State() == Replace(old(State()))
    {
      if start.Some? {
        stack := stack[point := start.value];
        stackChanged := true;
      }
    }

    /** `landing` and `end` say where the text area is after the jump. */
    method GotoParagraph(landing: Option<Position>, end: bool)
      requires Valid(State())
      modifies this
      ensures State() == Goto(old(State()), landing, end)
    {
      hide Push, Pushes, Trimmed;
      if start.None? && !hasEnd {
        return;
      }
      if |stack| > point {
        stack := stack[..point];
        stackChanged := true;
      }
      var _ := PushCurrentPositionIntoStack(false);
      point := |stack|;
      start, hasEnd := landing, end;
    }

    method UndoPageMove()
      requires Valid(State()) && (CanUndo(State()) ==> UndoFits(State()))
      modifies this
      ensures State() == Undo(old(State()))
    {
      hide Trimmed, Push, Pushes;
      if CanUndo(State()) {
        UndoIndexExactly(State());
        if point == |stack| {
          var pushed := PushCurrentPositionIntoStack(false);
          if !pushed {
            point := point - 1;
          }
        } else {
          ReplaceCurrentPositionInStack();
        }
        point := point - 1;
        start := Some(stack[point]);
      }
    }

    method RedoPageMove()
      requires Valid(State())
      modifies this
      ensures State() == Redo(old(State()))
    {
      if CanRedo(State()) {
        ReplaceCurrentPositionInStack();
        point := point + 1;
        start := Some(stack[point]);
        if point + 1 == |stack| {
          stack := stack[..|stack| - 1];
          stackChanged := true;
        }
      }
    }
  }

  // ---------- every run ----------

  /** What the user can do; a move turns pages without touching the stack. */
  datatype Event = Jump(landing: Option<Position>, end: bool) | Move(to: Position) | UndoMove | RedoMove

  function After(v: View, e: Event): View
    requires Valid(v) && (e == UndoMove && CanUndo(v) ==> UndoFits(v))
  {
    match e
    case Jump(landing, end) => Goto(v, landing, end)
    case Move(to) => v.(start := Some(to))
    case UndoMove => Undo(v)
    case RedoMove => Redo(v)
  }

  lemma EveryStepIsValid(v: View, e: Event)
    requires Valid(v) && (e == UndoMove && CanUndo(v) ==> UndoFits(v))
    ensures Valid(After(v, e))
  {
  }

  /** The states of a run. */
  ghost predicate IsRun(states: seq<View>, events: seq<Event>)
  {
    && |states| == |events| + 1
    && forall i :: 0 <= i < |events| && Valid(states[i]) ==>
         && (events[i] == UndoMove && CanUndo(states[i]) ==> UndoFits(states[i]))
         && states[i + 1] == After(states[i], events[i])
  }

  /** In every run the point stays within the stack, the stack within its bound, and no change is lost for saving. */
  lemma {:induction false} EveryRunIsValid(states: seq<View>, events: seq<Event>, n: nat)
    requires IsRun(states, events) && Valid(states[0]) && n <= |events|
    ensures Valid(states[n])
  {
    hide Valid, After;
    if n > 0 {
      EveryRunIsValid(states, events, n - 1);
      EveryStepIsValid(states[n - 1], events[n - 1]);
    }
  }

  // ---------- undo and redo ----------

  /** `k` undos one after the other. */
  function Undos(v: View, k: nat): (r: View)
    requires Valid(v) && v.start.Some?
    ensures Valid(r) && r.start.Some?
  {
    if k == 0 then v else
      var u := Undos(v, k - 1);
      EveryStepIsValid(u, UndoMove);
      Undo(u)
  }

  function Redos(v: View, k: nat): (r: View)
    requires Valid(v) && v.start.Some?
    ensures Valid(r) && r.start.Some?
  {
    if k == 0 then v else
      var u := Redos(v, k - 1);
      EveryStepIsValid(u, RedoMove);
      Redo(u)
  }

  predicate AllPermitted(v: View, k: nat)
    requires Valid(v) && v.start.Some?
  {
    forall i :: 0 <= i < k ==> CanUndo(Undos(v, i))
  }

  /** In the middle of the stack: the entry at the point is the place shown, and there is a later one. */
  predicate Settled(v: View)
  {
    v.start.Some? && 0 <= v.point < |v.stack| - 1 && v.stack[v.point] == v.start.value
  }

  /** Equal but for the note that something has to be saved. */
  predicate Same(v: View, w: View) { v.(changed := w.changed, saved := w.saved) == w }

  lemma SameRedo(v: View, w: View)
    requires Valid(v) && Valid(w) && Same(v, w)
    ensures CanRedo(v) <==> CanRedo(w)
    ensures Same(Redo(v), Redo(w))
  {
  }

  lemma TrimmedByOne(v: View)
    requires 0 <= v.point <= |v.stack| == MAX_STACK_SIZE + 1
    ensures Trimmed(v) == v.(stack := v.stack[1..], point := if v.point > 0 then v.point - 1 else v.point)
  {
  }

  /** What pushing at the end of the stack does, with the oldest entry dropped from a full one. */
  lemma PushAtEnd(v: View)
    requires Valid(v) && v.point == |v.stack| && Pushes(v)
    ensures Push(v) == if |v.stack| < MAX_STACK_SIZE then v.(stack := v.stack + [v.start.value], changed := true)
                       else v.(stack := v.stack[1..] + [v.start.value], changed := true, point := |v.stack| - 1)
  {
    hide Trimmed;
    var longer := v.(stack := v.stack + [v.start.value], changed := true);
    if |v.stack| == MAX_STACK_SIZE {
      TrimmedByOne(longer);
      assert (v.stack + [v.start.value])[1..] == v.stack[1..] + [v.start.value];
    }
  }

  /** What one undo followed by one redo leaves: the place shown is the same, and so is the stack but for the oldest
      entry of a full stack, a top entry that was the place shown, or an entry the place shown has replaced. */
  function UndoneAndRedone(v: View): View
    requires v.start.Some? && 0 <= v.point <= |v.stack|
  {
    if v.stack == [] then v
    else if v.point == |v.stack| then
      if !Pushes(v) then v.(stack := v.stack[..|v.stack| - 1], point := v.point - 1)
      else if |v.stack| < MAX_STACK_SIZE then v
      else v.(stack := v.stack[1..], point := v.point - 1)
    else if v.point + 1 == |v.stack| then v.(stack := v.stack[..v.point])
    else v.(stack := v.stack[v.point := v.start.value])
  }

  lemma UndoThenRedo(v: View)
    requires Valid(v) && v.start.Some? && CanUndo(v)
    ensures Valid(Undo(v)) && Settled(Undo(v)) && CanRedo(Undo(v))
    ensures Same(Redo(Undo(v)), UndoneAndRedone(v))
  {
    hide Push, Trimmed;
    EveryStepIsValid(v, UndoMove);
    if v.point == |v.stack| {
      NotPushed(v);
      if Pushes(v) {
        PushAtEnd(v);
        RedoAfterPush(v);
      } else {
        RedoAfterSkip(v);
      }
    } else {
      RedoInside(v);
    }
  }

  lemma NotPushed(v: View)
    requires 0 <= v.point <= |v.stack|
    ensures !Pushes(v) ==> Push(v) == v
  {
  }

  lemma RedoAfterPush(v: View)
    requires Valid(v) && v.start.Some? && CanUndo(v) && Valid(Undo(v)) && v.point == |v.stack| && Pushes(v)
    requires Push(v) == if |v.stack| < MAX_STACK_SIZE then v.(stack := v.stack + [v.start.value], changed := true)
                        else v.(stack := v.stack[1..] + [v.start.value], changed := true, point := |v.stack| - 1)
    ensures Settled(Undo(v)) && CanRedo(Undo(v)) && Same(Redo(Undo(v)), UndoneAndRedone(v))
  {
    hide Push, Trimmed, Pushes;
    var before := if |v.stack| < MAX_STACK_SIZE then v.stack else v.stack[1..];
    var u := Undo(v);
    assert u.stack == before + [v.start.value] && u.point == |before| - 1;
    assert u.stack[u.point := u.start.value] == u.stack;
    assert u.stack[..|before|] == before;
  }

  lemma RedoAfterSkip(v: View)
    requires Valid(v) && v.start.Some? && CanUndo(v) && Valid(Undo(v))
    requires v.point == |v.stack| && !Pushes(v) && Push(v) == v
    ensures Settled(Undo(v)) && CanRedo(Undo(v)) && Same(Redo(Undo(v)), UndoneAndRedone(v))
  {
    hide Push, Trimmed;
    var u := Undo(v);
    assert u.stack == v.stack && u.point == |v.stack| - 2;
    assert u.stack[u.point := u.start.value] == u.stack;
  }

  lemma RedoInside(v: View)
    requires Valid(v) && v.start.Some? && CanUndo(v) && Valid(Undo(v)) && v.point < |v.stack|
    ensures Settled(Undo(v)) && CanRedo(Undo(v)) && Same(Redo(Undo(v)), UndoneAndRedone(v))
  {
    hide Push, Trimmed, Pushes;
    var u := Undo(v);
    var stack := v.stack[v.point := v.start.value];
    assert u.stack == stack && u.point == v.point - 1;
    assert u.stack[u.point := u.start.value] == u.stack;
    assert stack[..v.point] == v.stack[..v.point];
  }

  /** Inside the stack, redo takes back undo exactly. */
  lemma SettledUndoThenRedo(v: View)
    requires Valid(v) && Settled(v) && CanUndo(v)
    ensures Valid(Undo(v)) && Settled(Undo(v)) && CanRedo(Undo(v)) && Same(Redo(Undo(v)), v)
  {
    hide Push, Trimmed, Undo, Redo;
    UndoThenRedo(v);
    assert v.stack[v.point := v.start.value] == v.stack;
  }

  /** After any number of undos, redos lead back through the same places. */
  lemma {:induction false} RedosTakeBack(v: View, k: nat, i: nat)
    requires Valid(v) && v.start.Some? && AllPermitted(v, k) && i < k
    ensures Settled(Undos(v, k - i)) && Same(Redos(Undos(v, k), i), Undos(v, k - i))
    ensures CanRedo(Redos(Undos(v, k), i))
    decreases i
  {
    hide Redo, Valid, AllPermitted;
    UndosSettle(v, k, k - i);
    if i > 0 {
      RedosTakeBack(v, k, i - 1);
      SettledStep(v, k, k - i);
      SameRedo(Redos(Undos(v, k), i - 1), Undos(v, k - i + 1));
    }
    assert CanRedo(Undos(v, k - i));
  }

  lemma UndosSettle(v: View, k: nat, j: nat)
    requires Valid(v) && v.start.Some? && AllPermitted(v, k) && 1 <= j <= k
    ensures Settled(Undos(v, j)) && CanRedo(Undos(v, j))
  {
    hide Valid, Undo;
    UndoThenRedo(Undos(v, j - 1));
  }

  lemma SettledStep(v: View, k: nat, j: nat)
    requires Valid(v) && v.start.Some? && AllPermitted(v, k) && 1 <= j < k
    ensures Same(Redo(Undos(v, j + 1)), Undos(v, j))
  {
    hide Valid, Undo, Redo;
    UndosSettle(v, k, j);
    SettledUndoThenRedo(Undos(v, j));
  }

  /** `k` permitted undos can be followed by `k` redos; on the way they show the same places, and they end at the place
      shown at first, with the stack that one undo and one redo leave. */
  lemma UndosThenRedos(v: View, k: nat)
    requires Valid(v) && v.start.Some? && AllPermitted(v, k) && k > 0
    ensures forall i :: 0 <= i < k ==> CanRedo(Redos(Undos(v, k), i))
    ensures forall i :: 0 <= i <= k ==> Redos(Undos(v, k), i).start == Undos(v, k - i).start
    ensures Same(Redos(Undos(v, k), k), UndoneAndRedone(v))
  {
    hide Valid, Undo, Redo, AllPermitted, CanRedo;
    forall i | 0 <= i < k
      ensures CanRedo(Redos(Undos(v, k), i)) && Redos(Undos(v, k), i).start == Undos(v, k - i).start
    {
      RedosTakeBack(v, k, i);
    }
    RedosTakeBack(v, k, k - 1);
    LastRedo(v, k);
  }

  lemma LastRedo(v: View, k: nat)
    requires Valid(v) && v.start.Some? && AllPermitted(v, k) && k > 0
    requires Same(Redos(Undos(v, k), k - 1), Undos(v, 1))
    ensures Same(Redos(Undos(v, k), k), UndoneAndRedone(v))
    ensures Redos(Undos(v, k), k).start == v.start
  {
    hide Valid, Undo, Redo;
    assert Undos(v, 0) == v && CanUndo(Undos(v, 0));
    UndoThenRedo(v);
    assert Undos(v, 1) == Undo(v);
    SameRedo(Redos(Undos(v, k), k - 1), Undo(v));
  }

  /** A jump leaves the place it started from on top of the stack. */
  lemma JumpPushes(v: View, start: Option<Position>, end: bool)
    requires Valid(v) && v.start.Some?
    ensures
      var g := Goto(v, start, end);
      g.start == start && g.point == |g.stack| && g.stack != [] && g.stack[|g.stack| - 1] == v.start.value
  {
    hide Trimmed, Push;
    var cut := if |v.stack| > v.point then v.(stack := v.stack[..v.point], changed := true) else v;
    NotPushed(cut);
    if Pushes(cut) {
      PushAtEnd(cut);
    }
  }

  lemma UndoAtEnd(g: View)
    requires Valid(g) && g.point == |g.stack| && Pushes(g) && g.stack != []
    ensures CanUndo(g) && Undo(g).start == Some(g.stack[|g.stack| - 1])
  {
    hide Trimmed, Push;
    PushAtEnd(g);
  }

  /** A jump to another place can be undone, and that leads back to where it started. */
  lemma JumpThenUndo(v: View, to: Position, end: bool)
    requires Valid(v) && v.start.Some? && v.start.value != to
    ensures CanUndo(Goto(v, Some(to), end)) && Undo(Goto(v, Some(to), end)).start == v.start
  {
    hide Goto, Undo, CanUndo;
    EveryStepIsValid(v, Jump(Some(to), end));
    JumpPushes(v, Some(to), end);
    UndoAtEnd(Goto(v, Some(to), end));
  }

  /** Nothing can be redone after a jump. */
  lemma JumpCutsRedo(v: View, start: Option<Position>, end: bool)
    requires Valid(v) && !AreaEmpty(v)
    ensures
      var g := Goto(v, start, end);
      && !CanRedo(g) && g.point == |g.stack|
      && (v.start.None? ==> g.stack == v.stack[..v.point])
      && (v.start.Some? && (v.point == 0 || v.stack[v.point - 1] != v.start.value) ==>
            g.stack == (if v.point < 20 then v.stack[..v.point] else v.stack[1..]) + [v.start.value])
      && (v.start.Some? && v.point > 0 && v.stack[v.point - 1] == v.start.value ==> g.stack == v.stack[..v.point])
  {
    hide Trimmed, Push;
    var cut := if |v.stack| > v.point then v.(stack := v.stack[..v.point], changed := true) else v;
    assert v.stack[..|v.stack|] == v.stack;
    NotPushed(cut);
    if Pushes(cut) {
      PushAtEnd(cut);
    }
  }

  /** A second undo after a jump leads to the entry before the place it started from. */
  lemma JumpThenUndos(v: View, to: Position, end: bool)
    requires Valid(v) && v.start.Some? && v.start.value != to
    requires v.point > 0 && v.stack[v.point - 1] != v.start.value
    ensures
      var u := Undo(Goto(v, Some(to), end));
      && u.start == v.start && CanUndo(u) && Valid(u) && Undo(u).start == Some(v.stack[v.point - 1])
  {
    hide Trimmed, Push, Goto;
    EveryStepIsValid(v, Jump(Some(to), end));
    JumpThenUndo(v, to, end);
    JumpCutsRedo(v, Some(to), end);
    var g := Goto(v, Some(to), end);
    JumpPushes(v, Some(to), end);
    var n := |g.stack|;
    assert g.stack[n - 2] == v.stack[v.point - 1];
    PushAtEnd(g);
    EveryStepIsValid(g, UndoMove);
    UndoInside(Undo(g));
  }

  lemma UndoInside(v: View)
    requires Valid(v) && v.start.Some? && 0 < v.point < |v.stack|
    ensures CanUndo(v) && Undo(v).start == Some(v.stack[v.point - 1])
    ensures Undo(v).stack == v.stack[v.point := v.start.value] && Undo(v).point == v.point - 1
  {
  }

  // ---------- redo ----------

  /** Redo shows the next entry, and the place it leaves takes its place in the stack; an entry that has come to the top
      is taken off. */
  lemma RedoExactly(v: View)
    requires Valid(v) && CanRedo(v)
    ensures
      var r := Redo(v);
      && r.start == Some(v.stack[v.point + 1]) && r.point == v.point + 1
      && |r.stack| == |v.stack| - (if v.point + 2 == |v.stack| then 1 else 0)
      && (forall i :: 0 <= i < |r.stack| && i != v.point ==> r.stack[i] == v.stack[i])
      && (v.start.Some? ==> r.stack[v.point] == v.start.value)
      && (v.start.None? ==> r.stack[v.point] == v.stack[v.point])
  {
  }

  /** So undo takes back redo, also after pages have been turned. */
  lemma RedoThenUndo(v: View)
    requires Valid(v) && v.start.Some? && CanRedo(v) && Redo(v).start != v.start
    ensures Valid(Redo(v)) && CanUndo(Redo(v)) && Undo(Redo(v)).start == v.start && Undo(Redo(v)).point == v.point
  {
    hide Trimmed, Push, Redo;
    RedoExactly(v);
    EveryStepIsValid(v, RedoMove);
    var r := Redo(v);
    if r.point == |r.stack| {
      assert Pushes(r);
      PushAtEnd(r);
    } else {
      UndoInside(r);
    }
  }

  // ---------- opening ----------

  /** A stack that is not too long is opened as it was saved, at the saved point, or behind its end when there is no
      such point. */
  lemma OpenedExactly(loaded: seq<Position>, stackPos: int, start: Option<Position>, hasEnd: bool)
    requires |loaded| <= 20
    ensures Opened(loaded, stackPos, start, hasEnd) ==
            View(loaded, if stackPos < 0 || |loaded| < stackPos then |loaded| else stackPos, false, loaded,
                 start, hasEnd)
  {
  }

  /** A longer one keeps its newest twenty entries, and the point its entry, and has to be saved. */
  lemma LongOpened(loaded: seq<Position>, stackPos: int, start: Option<Position>, hasEnd: bool)
    requires |loaded| > 20
    ensures
      var r := Opened(loaded, stackPos, start, hasEnd);
      && r.stack == loaded[|loaded| - 20..] && r.changed
      && (stackPos < 0 || stackPos > |loaded| ==> r.point == 20)
      && (0 <= stackPos < |loaded| - 20 ==> r.point == 0)
      && (|loaded| - 20 <= stackPos <= |loaded| ==> r.point == stackPos - (|loaded| - 20))
  {
    hide Trimmed;
    var p := if 0 <= stackPos <= |loaded| then stackPos else |loaded|;
    TrimmedIsNewest(View(loaded, p, |loaded| > MAX_STACK_SIZE, loaded, start, hasEnd));
  }

  /** Saving and opening the book again changes nothing but the note that something has to be saved; so every undo, redo
      and jump does what it would have done. */
  lemma SavedThenOpened(v: View)
    requires Valid(v)
    ensures Opened(v.stack, v.point, v.start, v.hasEnd) == v.(changed := false, saved := v.stack)
  {
    OpenedExactly(v.stack, v.point, v.start, v.hasEnd);
  }

  /** The same on the view. */
  method SaveAndReopen(view: BookTextView)
    requires Valid(view.State()) && view.start.Some?
    modifies view
    ensures view.State() == old(view.State()).(changed := false, saved := old(view.stack))
  {
    view.SaveState();
    SavedThenOpened(view.State());
    view.SetModel(view.savedStack, view.point, view.start, view.hasEnd);
  }

  /** An undo that does not fit can come up: after a first jump that lays the text out from its end. */
  lemma UndoNeedNotFit(c: Position)
    ensures
      var v := View([], 0, false, [], Some(c), false);
      Valid(v) && CanUndo(Goto(v, None, true)) && !UndoFits(Goto(v, None, true))
  {
    JumpPushes(View([], 0, false, [], Some(c), false), None, true);
  }
}
