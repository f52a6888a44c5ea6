/** The store as a mutable object: cells are updated by `SetFirst` and
    `SetSecond` and scopes by `Insert`, `Set` and `Clear` in place, and the
    walks of `Scope::Lookup` and `Scope::Set` along the parent links are
    loops.  Each method is proved to perform the corresponding operation of
    heap.dfy or scope.dfy on the store's value `Snapshot()`. */
module Stores {
  import opened Base
  import opened Objects
  import opened Heaps
  import Scopes

  class Store {
    var cells: seq<CellRec>
    var frames: seq<Frame>
    var closures: seq<ClosureRec>

    /** The store as a value. */
    function Snapshot(): Heap
      reads this
    {
      Heap(cells, frames, closures)
    }

    /** An empty store. */
    constructor ()
      ensures Snapshot() == Heap([], [], []) && Wf(Snapshot())
    {
      cells := [];
      frames := [];
      closures := [];
    }

    // -------------------------------------------------------------------
    // Cells (parser.cpp:125-143)

    /** `std::make_shared<Cell>(a, b)`. */
    method NewCell(a: Value, b: Value) returns (v: Value)
      requires Wf(Snapshot()) && ValueOk(a, Snapshot()) && ValueOk(b, Snapshot())
      modifies this`cells
      ensures v == Pair(|old(cells)|)
      ensures Snapshot() == Heaps.NewCell(old(Snapshot()), a, b)
    {
      v := Pair(|cells|);
      cells := cells + [CellRec(a, b)];
    }

    /** `Cell::GetFirst`. */
    function GetFirst(c: nat): (v: Value)
      reads this
      requires Wf(Snapshot()) && c < |cells|
      ensures ValueOk(v, Snapshot())
    {
      cells[c].first
    }

    /** `Cell::GetSecond`. */
    function GetSecond(c: nat): (v: Value)
      reads this
      requires Wf(Snapshot()) && c < |cells|
      ensures ValueOk(v, Snapshot())
    {
      cells[c].second
    }

    /** `Cell::SetFirst`: every handle to cell `c` sees the new field. */
    method SetFirst(c: nat, v: Value)
      requires Wf(Snapshot()) && c < |cells| && ValueOk(v, Snapshot())
      modifies this`cells
      ensures Snapshot() == Heaps.SetFirst(old(Snapshot()), c, v)
    {
      cells := cells[c := cells[c].(first := v)];
    }

    /** `Cell::SetSecond`. */
    method SetSecond(c: nat, v: Value)
      requires Wf(Snapshot()) && c < |cells| && ValueOk(v, Snapshot())
      modifies this`cells
      ensures Snapshot() == Heaps.SetSecond(old(Snapshot()), c, v)
    {
      cells := cells[c := cells[c].(second := v)];
    }

    // -------------------------------------------------------------------
    // Scopes (scope.cpp)

    /** The two `Scope` constructors: a frame without a parent, or under
        `parent`. */
    method NewScope(parent: Option<nat>) returns (f: nat)
      requires Wf(Snapshot()) && (parent.Some? ==> parent.value < |frames|)
      modifies this`frames
      ensures f == |old(frames)|
      ensures Snapshot() == Scopes.NewFrame(old(Snapshot()), parent)
    {
      f := |frames|;
      frames := frames + [Frame(map[], parent)];
    }

    /** `Scope::LookupInCurrentScope`: the map lookup; the empty value when
        the name is absent. */
    method LookupInCurrentScope(f: nat, name: string) returns (v: Value)
      requires Wf(Snapshot()) && f < |frames|
      ensures v == Scopes.LookupHere(Snapshot(), f, name)
    {
      if name in frames[f].vars {
        v := frames[f].vars[name];
      } else {
        v := Nil;
      }
    }

    /** `Scope::Lookup`: the loop along the parents while nothing is found. */
    method Lookup(f: nat, name: string) returns (r: Result<Value>)
      requires Wf(Snapshot()) && f < |frames|
      ensures r == Scopes.Lookup(Snapshot(), f, name)
    {
      var result := LookupInCurrentScope(f, name);
      var previous: Option<nat> := frames[f].parent;
      while result == Nil && previous.Some?
        invariant previous.Some? ==> previous.value < |frames|
        invariant Scopes.Lookup(Snapshot(), f, name) ==
          if result != Nil then Ok(result)
          else match previous
            case None => Err(NameError)
            case Some(p) => Scopes.Lookup(Snapshot(), p, name)
        decreases if previous.Some? then previous.value + 1 else 0
      {
        var p := previous.value;
        result := LookupInCurrentScope(p, name);
        previous := frames[p].parent;
      }
      if result == Nil {
        r := Err(NameError);
      } else {
        r := Ok(result);
      }
    }

    /** `Scope::Insert`. */
    method Insert(f: nat, name: string, v: Value)
      requires Wf(Snapshot()) && f < |frames| && ValueOk(v, Snapshot())
      modifies this`frames
      ensures Snapshot() == Scopes.Insert(old(Snapshot()), f, name, v)
    {
      frames := frames[f := frames[f].(vars := frames[f].vars[name := v])];
    }

    /** `Scope::Set`: `found` is false where the source throws NameError, and
        then nothing has changed. */
    method Set(f: nat, name: string, v: Value) returns (found: bool)
      requires Wf(Snapshot()) && f < |frames| && ValueOk(v, Snapshot())
      modifies this`frames
      ensures found <==> Scopes.SetVar(old(Snapshot()), f, name, v).Ok?
      ensures found ==> Snapshot() == Scopes.SetVar(old(Snapshot()), f, name, v).value
      ensures !found ==> Snapshot() == old(Snapshot())
    {
      var result := LookupInCurrentScope(f, name);
      if result != Nil {
        Insert(f, name, v);
        return true;
      }
      var previous: Option<nat> := frames[f].parent;
      while result == Nil && previous.Some?
        invariant Snapshot() == old(Snapshot())
        invariant result == Nil
        invariant previous.Some? ==> previous.value < |frames|
        invariant Scopes.SetVar(Snapshot(), f, name, v) ==
          match previous
          case None => Err(NameError)
          case Some(p) => Scopes.SetVar(Snapshot(), p, name, v)
        decreases if previous.Some? then previous.value + 1 else 0
      {
        var p := previous.value;
        result := LookupInCurrentScope(p, name);
        if result != Nil {
          Insert(p, name, v);
          return true;
        }
        previous := frames[p].parent;
      }
      return false;
    }

    /** `Scope::Clear`. */
    method Clear(f: nat)
      requires Wf(Snapshot()) && f < |frames|
      modifies this`frames
      ensures Snapshot() == Scopes.Clear(old(Snapshot()), f)
    {
      frames := frames[f := Frame(map[], frames[f].parent)];
    }

    // -------------------------------------------------------------------
    // Closures (scheme/functions.cpp:548-554)

    /** `std::make_shared<LambdaClosure>(...)`. */
    method NewClosure(params: seq<string>, body: seq<Value>, frame: nat) returns (v: Value)
      requires Wf(Snapshot()) && frame < |frames| && AllOk(body, Snapshot())
      modifies this`closures
      ensures v == Closure(|old(closures)|)
      ensures Snapshot() == Heaps.NewClosure(old(Snapshot()), params, body, frame)
    {
      v := Closure(|closures|);
      closures := closures + [ClosureRec(params, body, frame)];
    }
  }
}
