/** Handles for Python objects that cross the foreign-function boundary. */
module HandleMap {
  import opened Wrappers

  type Handle = nat

  const INITIAL: nat := 1
  const DELTA: nat := 2

  /** The handle of the k-th object, counting from 0. */
  function NthHandle(k: nat): Handle {
    INITIAL + DELTA * k
  }

  /** What a map holds, and every object that was ever given a handle, in order. */
  datatype State<T> = State(entries: map<Handle, T>, issued: seq<T>) {
    ghost predicate Valid() {
      forall h :: h in entries ==>
        exists k :: 0 <= k < |issued| && h == NthHandle(k) && entries[h] == issued[k]
    }

    /** The counter: the next handle to issue. */
    function Next(): Handle {
      NthHandle(|issued|)
    }

    function Insert(obj: T): State<T> {
      State(entries[Next() := obj], issued + [obj])
    }

    function Remove(h: Handle): State<T> {
      State(entries - {h}, issued)
    }
  }

  datatype InternalError = InvalidHandle(handle: Handle)

  class HandleMap<T> {
    var entries: map<Handle, T>
    var counter: Handle
    ghost var issued: seq<T>

    ghost function Abstract(): State<T>
      reads this
    {
      State(entries, issued)
    }

    ghost predicate Valid()
      reads this
    {
      Abstract().Valid() && counter == Abstract().Next()
    }

    constructor ()
      ensures Valid() && Abstract() == State(map[], [])
    {
      entries, counter, issued := map[], INITIAL, [];
    }

    method Insert(obj: T) returns (handle: Handle)
      requires Valid()
      modifies this
      ensures Valid() && handle == old(Abstract()).Next()
      ensures Abstract() == old(Abstract()).Insert(obj) == Step(old(Abstract()), Op.Insert(obj))
    {
      handle := counter;
      counter := counter + DELTA;
      entries := entries[handle := obj];
      issued := issued + [obj];
      InsertKeepsValid(old(Abstract()), obj);
    }

    method Get(handle: Handle) returns (result: Result<T, InternalError>)
      requires Valid()
      ensures result == if handle in entries then Ok(entries[handle]) else Err(InvalidHandle(handle))
      ensures Abstract() == Step(Abstract(), Op.Get(handle))
    {
      if handle in entries {
        return Ok(entries[handle]);
      }
      return Err(InvalidHandle(handle));
    }

    method Clone(handle: Handle) returns (result: Result<Handle, InternalError>)
      requires Valid()
      modifies this
      ensures Valid()
      ensures handle in old(entries) ==>
                && result == Ok(old(Abstract()).Next())
                && Abstract() == old(Abstract()).Insert(old(entries)[handle])
      ensures handle !in old(entries) ==>
                result == Err(InvalidHandle(handle)) && Abstract() == old(Abstract())
      ensures Abstract() == Step(old(Abstract()), Op.Clone(handle))
    {
      if handle in entries {
        var copy := Insert(entries[handle]);
        return Ok(copy);
      }
      return Err(InvalidHandle(handle));
    }

    method Remove(handle: Handle) returns (result: Result<T, InternalError>)
      requires Valid()
      modifies this
      ensures Valid() && Abstract() == old(Abstract()).Remove(handle) == Step(old(Abstract()), Op.Remove(handle))
      ensures result == if handle in old(entries) then Ok(old(entries)[handle]) else Err(InvalidHandle(handle))
    {
      if handle in entries {
        result := Ok(entries[handle]);
        entries := entries - {handle};
      } else {
        assert entries - {handle} == entries;
        return Err(InvalidHandle(handle));
      }
    }
  }

  lemma InsertKeepsValid<T>(s: State<T>, obj: T)
    requires s.Valid()
    ensures s.Insert(obj).Valid()
    ensures s.Next() !in s.entries
  {
    var t := s.Insert(obj);
    forall h | h in t.entries
      ensures exists k :: 0 <= k < |t.issued| && h == NthHandle(k) && t.entries[h] == t.issued[k]
    {
      if h == s.Next() {
        assert t.entries[h] == t.issued[|s.issued|];
      } else {
        var k :| 0 <= k < |s.issued| && h == NthHandle(k) && s.entries[h] == s.issued[k];
        assert t.entries[h] == t.issued[k];
      }
    }
  }

  // Whole runs

  datatype Op<T> = Insert(obj: T) | Get(handle: Handle) | Clone(handle: Handle) | Remove(handle: Handle)

  function Step<T>(s: State<T>, op: Op<T>): State<T> {
    match op
    case Insert(obj) => s.Insert(obj)
    case Get(_) => s
    case Clone(h) => if h in s.entries then s.Insert(s.entries[h]) else s
    case Remove(h) => s.Remove(h)
  }

  function Run<T>(s: State<T>, ops: seq<Op<T>>): State<T>
    decreases |ops|
  {
    if ops == [] then s else Run(Step(s, ops[0]), ops[1..])
  }

  /** In every run handles are odd, each larger than the ones before, and a handle denotes
      for as long as it lives the object it was issued for. */
  lemma {:induction false} RunKeepsValid<T>(s: State<T>, ops: seq<Op<T>>)
    requires s.Valid()
    ensures Run(s, ops).Valid()
    ensures s.issued <= Run(s, ops).issued
    ensures s.Next() <= Run(s, ops).Next() && Run(s, ops).Next() % 2 == 1
    ensures forall h :: h in s.entries && h in Run(s, ops).entries ==> Run(s, ops).entries[h] == s.entries[h]
    ensures forall h :: h < s.Next() && h !in s.entries ==> h !in Run(s, ops).entries
    decreases |ops|
  {
    if ops != [] {
      StepKeepsValid(s, ops[0]);
      RunKeepsValid(Step(s, ops[0]), ops[1..]);
    }
  }

  lemma StepKeepsValid<T>(s: State<T>, op: Op<T>)
    requires s.Valid()
    ensures Step(s, op).Valid()
    ensures s.issued <= Step(s, op).issued && s.Next() <= Step(s, op).Next()
    ensures forall h :: h in s.entries && h in Step(s, op).entries ==> Step(s, op).entries[h] == s.entries[h]
    ensures forall h :: h < s.Next() && h !in s.entries ==> h !in Step(s, op).entries
  {
    match op
    case Insert(obj) => InsertKeepsValid(s, obj);
    case Get(_) =>
    case Clone(h) => if h in s.entries { InsertKeepsValid(s, s.entries[h]); }
    case Remove(_) =>
  }

  /** A handle that was removed is never issued again, and never denotes anything again. */
  lemma RemovedHandleIsDead<T>(s: State<T>, h: Handle, before: seq<Op<T>>, after: seq<Op<T>>)
    requires s.Valid() && h in Run(s, before).entries
    ensures var gone := Step(Run(s, before), Remove(h));
            h !in Run(gone, after).entries && h < Run(gone, after).Next()
  {
    RunKeepsValid(s, before);
    var at := Run(s, before);
    var k :| 0 <= k < |at.issued| && h == NthHandle(k) && at.entries[h] == at.issued[k];
    StepKeepsValid(at, Remove(h));
    RunKeepsValid(Step(at, Remove(h)), after);
  }

  /** Passing an object across the boundary and back: `lower` in some state, anything else
      in between that leaves the handle alone, then `lift`. */
  lemma LiftUndoesLower<T>(s: State<T>, obj: T, between: seq<Op<T>>)
    requires s.Valid()
    requires forall op :: op in between ==> op != Remove(s.Next())
    ensures var lifted := Run(s.Insert(obj), between);
            s.Next() in lifted.entries && lifted.entries[s.Next()] == obj
  {
    InsertKeepsValid(s, obj);
    Untouched(s.Insert(obj), s.Next(), between);
    RunKeepsValid(s.Insert(obj), between);
  }

  lemma {:induction false} Untouched<T>(s: State<T>, h: Handle, ops: seq<Op<T>>)
    requires s.Valid() && h in s.entries
    requires forall op :: op in ops ==> op != Remove(h)
    ensures h in Run(s, ops).entries
    decreases |ops|
  {
    if ops != [] {
      StepKeepsValid(s, ops[0]);
      assert ops[0] in ops;
      assert forall op :: op in ops[1..] ==> op in ops;
      Untouched(Step(s, ops[0]), h, ops[1..]);
    }
  }

  // Objects of a callback interface

  /** Implemented in Python, or a wrapper around a handle that Rust owns. */
  datatype Object = PythonObject(id: nat) | RustObject(handle: Handle)

  class Converter {
    const handles: HandleMap<Object>

    constructor ()
      ensures handles.Valid() && fresh(handles)
    {
      handles := new HandleMap<Object>();
    }

    /** `cloned` is the handle Rust returns when asked to clone its own. */
    method Lower(value: Object, cloned: Handle) returns (handle: Handle)
      requires handles.Valid()
      modifies handles
      ensures handles.Valid()
      ensures value.PythonObject? ==>
                && handle == old(handles.Abstract()).Next() && handle % 2 == 1
                && handles.Abstract() == old(handles.Abstract()).Insert(value)
      ensures value.RustObject? ==> handle == cloned && handles.Abstract() == old(handles.Abstract())
    {
      if value.RustObject? {
        return cloned;
      }
      handle := handles.Insert(value);
    }

    method Lift(value: Handle) returns (result: Result<Object, InternalError>)
      requires handles.Valid()
      modifies handles
      ensures handles.Valid()
      ensures value % 2 == 0 ==>
                result == Ok(RustObject(value)) && handles.Abstract() == old(handles.Abstract())
      ensures value % 2 == 1 ==> handles.Abstract() == old(handles.Abstract()).Remove(value)
      ensures value % 2 == 1 && value in old(handles.entries) ==> result == Ok(old(handles.entries)[value])
      ensures value % 2 == 1 && value !in old(handles.entries) ==> result == Err(InvalidHandle(value))
    {
      if value % 2 == 0 {
        return Ok(RustObject(value));
      }
      result := handles.Remove(value);
    }
  }

  /** The handles are the odd numbers, from 1. */
  lemma HandlesAreOdd<T>(s: State<T>)
    ensures s.Next() == 2 * |s.issued| + 1
  {
  }
}
