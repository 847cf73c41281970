/** The undo/redo machinery of shotboard_cmd.py: a command holds an undo and a
    redo callback, and the history keeps at most MAX_COMMANDS commands and a
    cursor on the last one done. Running a callback is outside the model; the
    history keeps a log of the callbacks it has run instead. */
module Commands {
  import opened PyList

  const MAX_COMMANDS: nat := 50

  /** A registered callback: the function's name and the data it is given. */
  datatype Callback = Callback(func: string, data: string)

  class Command {
    var undoFunc: Option<Callback>
    var redoFunc: Option<Callback>

    constructor ()
      ensures undoFunc == None && redoFunc == None
    {
      undoFunc := None;
      redoFunc := None;
    }

    method SetUndo(cb: Callback)
      modifies this
      ensures undoFunc == Some(cb) && redoFunc == old(redoFunc)
    {
      undoFunc := Some(cb);
    }

    method SetRedo(cb: Callback)
      modifies this
      ensures redoFunc == Some(cb) && undoFunc == old(undoFunc)
    {
      redoFunc := Some(cb);
    }

    /** Runs the undo callback, which must have been set; returns the
        callback that ran. */
    method Undo() returns (ran: Callback)
      requires undoFunc.Some?
      ensures Some(ran) == undoFunc
    {
      ran := undoFunc.value;
    }

    /** Runs the redo callback, which must have been set. */
    method Redo() returns (ran: Callback)
      requires redoFunc.Some?
      ensures Some(ran) == redoFunc
    {
      ran := redoFunc.value;
    }
  }

  /** The command list and cursor after `push`, as the code is written: the
      oldest commands are dropped (moving the cursor back) until fewer than
      MAX_COMMANDS remain, then everything after the cursor is cut with a
      Python slice and the new command goes at the end. */
  function Pushed<T>(list: seq<T>, index: int, cmd: T): (r: (seq<T>, int))
  {
    var dropped := if |list| >= MAX_COMMANDS then |list| - MAX_COMMANDS + 1 else 0;
    var i := index - dropped;
    (Take(list[dropped..], i + 1) + [cmd], i + 1)
  }

  /** `-1 <= index <= len - 1` and the length cap: what the history keeps. */
  predicate HistoryInvariant<T>(list: seq<T>, index: int) {
    -1 <= index < |list| <= MAX_COMMANDS
  }

  /** Push keeps the invariant, and the list never grows past the cap. */
  lemma PushKeepsInvariant<T>(list: seq<T>, index: int, cmd: T)
    requires HistoryInvariant(list, index)
    ensures HistoryInvariant(Pushed(list, index, cmd).0, Pushed(list, index, cmd).1)
  {
    var dropped := if |list| >= MAX_COMMANDS then |list| - MAX_COMMANDS + 1 else 0;
    assert |list[dropped..]| <= MAX_COMMANDS - 1;
  }

  /** The usual case: with room left, or with the cursor on a command, push
      cuts the redo tail, appends the command and puts the cursor on it. Only
      a full list loses its oldest command. */
  lemma PushCutsRedoTail<T>(list: seq<T>, index: int, cmd: T)
    requires HistoryInvariant(list, index)
    requires |list| < MAX_COMMANDS || index >= 0
    ensures var r := Pushed(list, index, cmd);
            && r.1 == |r.0| - 1 && r.0[r.1] == cmd
            && (|list| < MAX_COMMANDS ==> r.0 == list[..index + 1] + [cmd])
            && (|list| == MAX_COMMANDS ==> r.0 == list[1..index + 1] + [cmd])
  {
    if |list| == MAX_COMMANDS {
      assert list[1..][..index] == list[1..index + 1];
    }
  }

  /** As written, pushing onto a full list whose every command was undone
      drives the cursor to -2, so the slice `[: -1]` keeps 48 undone
      commands ahead of the new one and the cursor ends at -1: the next redo
      replays an old command and the new one cannot be undone. */
  lemma PushFullHistoryAtBottom<T>(list: seq<T>, cmd: T)
    requires |list| == MAX_COMMANDS
    ensures Pushed(list, -1, cmd) == (list[1..MAX_COMMANDS - 1] + [cmd], -1)
    ensures Pushed(list, -1, cmd).0[Pushed(list, -1, cmd).1 + 1] == list[1]
  {
    assert list[1..][..MAX_COMMANDS - 2] == list[1..MAX_COMMANDS - 1];
  }

  /** `push` with the cursor kept from going below -1 while the oldest
      commands are dropped. */
  function PushedIntended<T>(list: seq<T>, index: int, cmd: T): (r: (seq<T>, int))
  {
    var dropped := if |list| >= MAX_COMMANDS then |list| - MAX_COMMANDS + 1 else 0;
    var i := if index - dropped < -1 then -1 else index - dropped;
    (Take(list[dropped..], i + 1) + [cmd], i + 1)
  }

  /** The corrected push always leaves the cursor on the new command, with no
      redo tail, within the cap. */
  lemma PushIntendedCutsRedoTail<T>(list: seq<T>, index: int, cmd: T)
    requires HistoryInvariant(list, index)
    ensures var r := PushedIntended(list, index, cmd);
            && HistoryInvariant(r.0, r.1)
            && r.1 == |r.0| - 1 && r.0[r.1] == cmd
            && (index == -1 ==> r.0 == [cmd])
            && (|list| < MAX_COMMANDS ==> r.0 == list[..index + 1] + [cmd])
            && (|list| == MAX_COMMANDS && index >= 0 ==> r.0 == list[1..index + 1] + [cmd])
  {
    if |list| == MAX_COMMANDS && index >= 0 {
      assert list[1..][..index] == list[1..index + 1];
    }
  }

  class CommandHistory {
    var list: seq<Command>
    var index: int
    /** The callbacks run so far, oldest first. */
    var log: seq<Callback>

    predicate Valid()
      reads this
    {
      HistoryInvariant(list, index)
    }

    constructor ()
      ensures Valid() && list == [] && index == -1 && log == []
    {
      list := [];
      index := -1;
      log := [];
    }

    method Clear()
      modifies this
      ensures Valid() && list == [] && index == -1 && log == old(log)
    {
      list := [];
      index := -1;
    }

    /** Adds a command; no callback runs. */
    method Push(cmd: Command)
      modifies this
      ensures (list, index) == Pushed(old(list), old(index), cmd)
      ensures log == old(log)
      ensures old(Valid()) ==> Valid()
    {
      ghost var list0, index0 := list, index;
      while |list| >= MAX_COMMANDS
        invariant |list0| >= MAX_COMMANDS ==> MAX_COMMANDS - 1 <= |list| <= |list0|
        invariant |list0| < MAX_COMMANDS ==> list == list0
        invariant list == list0[|list0| - |list|..]
        invariant index == index0 - (|list0| - |list|)
        invariant log == old(log)
      {
        list := list[1..];
        index := index - 1;
      }
      list := Take(list, index + 1) + [cmd];
      index := index + 1;
      if HistoryInvariant(list0, index0) {
        PushKeepsInvariant(list0, index0, cmd);
      }
    }

    /** Runs the current command's undo and moves the cursor back; does
        nothing when every command is already undone. */
    method Undo()
      requires Valid()
      requires index >= 0 ==> list[index].undoFunc.Some?
      modifies this
      ensures Valid() && list == old(list)
      ensures old(index) >= 0 ==> index == old(index) - 1 && log == old(log) + [list[old(index)].undoFunc.value]
      ensures old(index) < 0 ==> index == old(index) && log == old(log)
    {
      if index >= 0 {
        var ran := list[index].Undo();
        log := log + [ran];
        index := index - 1;
      }
    }

    /** Moves the cursor forward and runs that command's redo; does nothing
        at the top of the list. */
    method Redo()
      requires Valid()
      requires index < |list| - 1 ==> list[index + 1].redoFunc.Some?
      modifies this
      ensures Valid() && list == old(list)
      ensures old(index) < |list| - 1 ==> index == old(index) + 1 && log == old(log) + [list[index].redoFunc.value]
      ensures old(index) >= |list| - 1 ==> index == old(index) && log == old(log)
    {
      if index < |list| - 1 {
        index := index + 1;
        var ran := list[index].Redo();
        log := log + [ran];
      }
    }
  }

  /** Undo followed by redo puts the cursor and the list back where they were,
      running the command's undo and then its redo. */
  method UndoThenRedo(h: CommandHistory)
    requires h.Valid() && h.index >= 0
    requires h.list[h.index].undoFunc.Some? && h.list[h.index].redoFunc.Some?
    modifies h
    ensures h.Valid() && h.list == old(h.list) && h.index == old(h.index)
    ensures h.log == old(h.log) + [h.list[h.index].undoFunc.value, h.list[h.index].redoFunc.value]
  {
    h.Undo();
    h.Redo();
  }

  /** The session at the end of shotboard_cmd.py: push c1, push c2, undo,
      push c3, undo. The redo tail c2 is dropped by the second push. */
  method ModuleExample() returns (h: CommandHistory, c1: Command, c2: Command, c3: Command)
    ensures h.list == [c1, c3] && h.index == 0
    ensures h.log == [Callback("remove_item", "Item 2"), Callback("remove_item", "Item 3")]
  {
    h := new CommandHistory();
    c1 := ExampleCommand("Item 1");
    c2 := ExampleCommand("Item 2");
    c3 := ExampleCommand("Item 3");
    h.Push(c1);
    h.Push(c2);
    h.Undo();
    PushThenUndo(h, c3);
  }

  /** The command of the session that adds `item` and whose undo removes it. */
  method ExampleCommand(item: string) returns (c: Command)
    ensures fresh(c)
    ensures c.redoFunc == Some(Callback("add_item", item)) && c.undoFunc == Some(Callback("remove_item", item))
  {
    c := new Command();
    c.SetRedo(Callback("add_item", item));
    c.SetUndo(Callback("remove_item", item));
  }

  /** The last two steps of the session: with room left, a command pushed
      and undone again leaves the list cut after the cursor plus that
      command, the cursor back where it was, and its undo in the log. */
  method PushThenUndo(h: CommandHistory, c: Command)
    requires h.Valid() && |h.list| < MAX_COMMANDS && c.undoFunc.Some?
    modifies h
    ensures h.list == old(h.list)[..old(h.index) + 1] + [c] && h.index == old(h.index)
    ensures h.log == old(h.log) + [c.undoFunc.value]
  {
    ghost var list0, index0 := h.list, h.index;
    h.Push(c);
    PushCutsRedoTail(list0, index0, c);
    h.Undo();
  }
}
